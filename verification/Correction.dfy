/** Recomputing the control codes of a kernel. */
module Correction {
  import opened ControlCode
  import opened DecodedInstructions
  import opened ControlFlow
  import opened HazardGraph
  import opened Scoreboard
  import opened BarrierIntervals
  import opened SlotAssignment

  // ---------- What the corrected codes are ----------

  /** The margin table in use, the hazard graph of a kernel, what needs a slot, who may share, and the slots chosen. */
  datatype Plan = Plan(
    minSafe: MarginTable,
    graph: set<HazardEdge>,
    ivs: seq<BarrierInterval>,
    group: seq<nat>,
    colors: seq<nat>)

  ghost predicate IsGraphOf(instrs: seq<DecodedInstruction>, graph: set<HazardEdge>)
    requires AllValid(instrs)
  {
    Resolves(instrs) && forall e :: e in graph <==> IsHazard(instrs, CfgOf(instrs), e)
  }

  ghost predicate IsPlan(instrs: seq<DecodedInstruction>, plan: Plan)
    requires AllValid(instrs)
  {
    && IsGraphOf(instrs, plan.graph)
    && GraphOver(|instrs|, plan.graph)
    && AreIntervals(plan.minSafe, instrs, plan.graph, plan.ivs)
    && AreShareGroups(plan.ivs, plan.group)
    && IsFirstFit(plan.ivs, plan.group, plan.colors)
  }

  predicate EnoughSlots(plan: Plan) {
    NumColors(plan.colors) <= SLOT_COUNT
  }

  /** The wait mask of instruction `i` from the first `n` intervals. */
  function MaskOf(ivs: seq<BarrierInterval>, colors: seq<nat>, i: nat, n: nat): nat
    requires n <= |ivs| == |colors|
  {
    if n == 0 then 0
    else
      var m := MaskOf(ivs, colors, i, n - 1);
      if ivs[n - 1].firstConsumer == i then SetBit(m, colors[n - 1]) else m
  }

  /** The slot that instruction `i` claims in one direction, from the first `n` intervals; -1 for none. */
  function BarOf(ivs: seq<BarrierInterval>, colors: seq<nat>, i: nat, direction: BarrierType, n: nat): int
    requires n <= |ivs| == |colors|
  {
    if n == 0 then -1
    else if ivs[n - 1].producer == i && ivs[n - 1].direction == direction then colors[n - 1]
    else BarOf(ivs, colors, i, direction, n - 1)
  }

  /** A hazard to the very next instruction that no barrier can close. */
  predicate NeedsStall(instrs: seq<DecodedInstruction>, graph: set<HazardEdge>, i: nat)
    requires GraphOver(|instrs|, graph)
  {
    exists e :: e in graph && e.producer == i && e.consumer == i + 1 && !EligibleEdge(instrs, e)
  }

  function Max(a: nat, b: nat): nat { if a < b then b else a }

  function FieldOfSlot(slot: int): nat
    requires slot >= -1
  {
    if slot >= 0 then slot else NO_SCOREBOARD
  }

  lemma {:induction false} BarOfRange(ivs: seq<BarrierInterval>, colors: seq<nat>, i: nat, direction: BarrierType,
                                      n: nat)
    requires n <= |ivs| == |colors|
    ensures BarOf(ivs, colors, i, direction, n) >= -1
    ensures NumColors(colors) <= SLOT_COUNT ==> BarOf(ivs, colors, i, direction, n) < SLOT_COUNT
  {
    if n > 0 {
      BarOfRange(ivs, colors, i, direction, n - 1);
    }
  }

  ghost function Slot(plan: Plan, i: nat, direction: BarrierType): (s: int)
    requires |plan.ivs| == |plan.colors|
    ensures s >= -1
  {
    BarOfRange(plan.ivs, plan.colors, i, direction, |plan.ivs|);
    BarOf(plan.ivs, plan.colors, i, direction, |plan.ivs|)
  }

  ghost function CorrectedFields(instrs: seq<DecodedInstruction>, plan: Plan, i: nat): CuControlCode
    requires GraphOver(|instrs|, plan.graph) && |plan.ivs| == |plan.colors| && i < |instrs|
  {
    CuControlCode(
      MaskOf(plan.ivs, plan.colors, i, |plan.ivs|),
      FieldOfSlot(Slot(plan, i, READ_BARRIER)),
      FieldOfSlot(Slot(plan, i, WRITE_BARRIER)),
      if instrs[i].ctrlCode.IsYield() then 0 else 1,
      Max(instrs[i].ctrlCode.GetStallCount(), if NeedsStall(instrs, plan.graph, i) then 1 else 0))
  }

  /** The kernel with its control codes replaced. */
  function Recode(instrs: seq<DecodedInstruction>, codes: seq<Word32>): (r: seq<DecodedInstruction>)
    requires |codes| == |instrs|
    ensures |r| == |instrs|
    ensures forall i :: 0 <= i < |r| ==> r[i] == instrs[i].(ctrlCode := SplitCode(codes[i]))
  {
    seq(|instrs|, i requires 0 <= i < |instrs| => instrs[i].(ctrlCode := SplitCode(codes[i])))
  }

  ghost predicate AreCorrectedCodes(instrs: seq<DecodedInstruction>, plan: Plan, codes: seq<Word32>)
    requires GraphOver(|instrs|, plan.graph) && |plan.ivs| == |plan.colors|
  {
    && |codes| == |instrs|
    && forall i :: 0 <= i < |instrs| ==>
         var cc := CorrectedFields(instrs, plan, i);
         cc.Valid() && codes[i] == MergeCode(cc.barrier, cc.read, cc.write, cc.yieldFlag, cc.stall)
  }

  // ---------- Wait masks and scoreboard fields in terms of intervals ----------

  lemma {:induction false} MaskMeaning(ivs: seq<BarrierInterval>, colors: seq<nat>, i: nat, n: nat, s: nat)
    requires n <= |ivs| == |colors| && NumColors(colors) <= SLOT_COUNT
    ensures MaskOf(ivs, colors, i, n) < 64
    ensures HasBit(MaskOf(ivs, colors, i, n), s) <==>
            exists k :: 0 <= k < n && ivs[k].firstConsumer == i && colors[k] == s
  {
    if n == 0 {
      ZeroHasNoBits(s);
    } else {
      MaskMeaning(ivs, colors, i, n - 1, s);
      var m := MaskOf(ivs, colors, i, n - 1);
      SetBitSets(m, colors[n - 1], s);
      assert Pow2(SLOT_COUNT) == 64;
      SetBitFits(m, colors[n - 1], SLOT_COUNT);
    }
  }

  lemma {:induction false} BarMeaning(ivs: seq<BarrierInterval>, colors: seq<nat>, i: nat, direction: BarrierType,
                                      n: nat, k: nat)
    requires n <= |ivs| == |colors| && SortedByProducer(ivs)
    requires k < n && ivs[k].producer == i && ivs[k].direction == direction
    ensures BarOf(ivs, colors, i, direction, n) == colors[k]
  {
    if k < n - 1 {
      BarMeaning(ivs, colors, i, direction, n - 1, k);
    }
  }

  lemma {:induction false} BarSource(ivs: seq<BarrierInterval>, colors: seq<nat>, i: nat, direction: BarrierType,
                                     n: nat)
    requires n <= |ivs| == |colors|
    ensures BarOf(ivs, colors, i, direction, n) != -1 ==>
              exists k :: 0 <= k < n && ivs[k].producer == i && ivs[k].direction == direction
                          && colors[k] == BarOf(ivs, colors, i, direction, n)
  {
    if n > 0 {
      BarSource(ivs, colors, i, direction, n - 1);
    }
  }

  lemma CorrectedFieldsValid(instrs: seq<DecodedInstruction>, plan: Plan, i: nat)
    requires AllValid(instrs) && IsPlan(instrs, plan) && EnoughSlots(plan) && i < |instrs|
    ensures CorrectedFields(instrs, plan, i).Valid()
  {
    MaskMeaning(plan.ivs, plan.colors, i, |plan.ivs|, 0);
    BarOfRange(plan.ivs, plan.colors, i, READ_BARRIER, |plan.ivs|);
    BarOfRange(plan.ivs, plan.colors, i, WRITE_BARRIER, |plan.ivs|);
    assert instrs[i].Valid();
  }

  /** Decoding the corrected codes gives back the corrected fields. */
  lemma RecodedFields(instrs: seq<DecodedInstruction>, plan: Plan, codes: seq<Word32>, i: nat)
    requires AllValid(instrs) && IsPlan(instrs, plan) && AreCorrectedCodes(instrs, plan, codes) && i < |instrs|
    ensures Recode(instrs, codes)[i].ctrlCode == CorrectedFields(instrs, plan, i)
  {
    SplitOfMerge(CorrectedFields(instrs, plan, i));
  }

  /** The scoreboard field of a corrected producer is the slot of its interval, if it has one. */
  lemma CorrectedBarrierField(instrs: seq<DecodedInstruction>, plan: Plan, codes: seq<Word32>, i: nat,
                              direction: BarrierType)
    requires AllValid(instrs) && IsPlan(instrs, plan) && EnoughSlots(plan) && AreCorrectedCodes(instrs, plan, codes) &&
             i < |instrs|
    ensures BarrierField(Recode(instrs, codes)[i].ctrlCode, direction) == Slot(plan, i, direction)
  {
    RecodedFields(instrs, plan, codes, i);
    BarOfRange(plan.ivs, plan.colors, i, direction, |plan.ivs|);
  }

  /** Stall counts after correction. */
  lemma {:induction false} StallAfter(instrs: seq<DecodedInstruction>, plan: Plan, codes: seq<Word32>, p: nat)
    requires AllValid(instrs) && IsPlan(instrs, plan) && EnoughSlots(plan) && AreCorrectedCodes(instrs, plan, codes)
    requires p < |instrs|
    ensures var was, now := instrs[p].ctrlCode.stall, Recode(instrs, codes)[p].ctrlCode.stall;
            now == if was == 0 && NeedsStall(instrs, plan.graph, p) then 1 else was
  {
    RecodedFields(instrs, plan, codes, p);
  }

  // ---------- Closing every hazard ----------

  lemma {:induction false} FirstConsumerExists(instrs: seq<DecodedInstruction>, graph: set<HazardEdge>, e: HazardEdge)
    returns (c: nat)
    requires GraphOver(|instrs|, graph) && e in graph && EligibleEdge(instrs, e)
    ensures IsFirstConsumer(instrs, graph, e.producer, c)
    ensures e.producer < c <= e.consumer
    decreases e.consumer
  {
    if e' :| e' in graph && e'.producer == e.producer && EligibleEdge(instrs, e') && e'.consumer < e.consumer {
      c := FirstConsumerExists(instrs, graph, e');
    } else {
      c := e.consumer;
    }
  }

  /** A producer that needs a slot is retired by the time its first consumer issues. */
  lemma IntervalIsRetired(instrs: seq<DecodedInstruction>, plan: Plan, codes: seq<Word32>, k: nat, c: nat)
    requires AllValid(instrs) && IsPlan(instrs, plan) && EnoughSlots(plan) && AreCorrectedCodes(instrs, plan, codes)
    requires k < |plan.ivs| && plan.ivs[k].firstConsumer <= c < |instrs|
    ensures plan.ivs[k].producer < |instrs|
    ensures Claims(Recode(instrs, codes)[plan.ivs[k].producer], plan.colors[k])
    ensures RetiredBy(Recode(instrs, codes), plan.ivs[k].producer, c)
  {
    var iv := plan.ivs[k];
    assert iv in plan.ivs && IsInterval(plan.minSafe, instrs, plan.graph, iv);
    var p, f := iv.producer, iv.firstConsumer;
    BarMeaning(plan.ivs, plan.colors, p, iv.direction, |plan.ivs|, k);
    CorrectedBarrierField(instrs, plan, codes, p, iv.direction);
    MaskMeaning(plan.ivs, plan.colors, f, |plan.ivs|, plan.colors[k]);
    RecodedFields(instrs, plan, codes, f);
    assert Recode(instrs, codes)[f].ctrlCode.WaitsOn(plan.colors[k]);
  }

  /** A producer without an interval has both scoreboard fields closed. */
  lemma NoIntervalNoSlot(instrs: seq<DecodedInstruction>, plan: Plan, p: nat, direction: BarrierType)
    requires AllValid(instrs) && IsPlan(instrs, plan) && p < |instrs|
    requires forall k :: 0 <= k < |plan.ivs| ==> plan.ivs[k].producer != p
    ensures Slot(plan, p, direction) == -1
  {
    BarSource(plan.ivs, plan.colors, p, direction, |plan.ivs|);
  }

  /** A nearest consumer that needs no slot means that its producer has no interval. */
  lemma {:induction false} NoIntervalAt(instrs: seq<DecodedInstruction>, plan: Plan, p: nat, f: nat)
    requires AllValid(instrs) && IsPlan(instrs, plan)
    requires p < f < |instrs| && IsFirstConsumer(instrs, plan.graph, p, f) && instrs[p].latency.Variable?
    requires !NeedsSlot(plan.minSafe, instrs[p], p, f)
    ensures forall k :: 0 <= k < |plan.ivs| ==> plan.ivs[k].producer != p
  {
    forall k | 0 <= k < |plan.ivs|
      ensures plan.ivs[k].producer != p
    {
      assert plan.ivs[k] in plan.ivs && IsInterval(plan.minSafe, instrs, plan.graph, plan.ivs[k]);
    }
  }

  lemma {:induction false} IntervalIndex(instrs: seq<DecodedInstruction>, plan: Plan, iv: BarrierInterval)
    returns (k: nat)
    requires AllValid(instrs) && IsPlan(instrs, plan) && IsInterval(plan.minSafe, instrs, plan.graph, iv)
    ensures k < |plan.ivs| && plan.ivs[k] == iv
  {
    assert iv in plan.ivs;
    k :| 0 <= k < |plan.ivs| && plan.ivs[k] == iv;
  }

  /** An edge whose producer needs a slot is closed by waiting at the first consumer. */
  lemma ProtectedEdgeCloses(instrs: seq<DecodedInstruction>, plan: Plan, codes: seq<Word32>, e: HazardEdge, f: nat)
    requires AllValid(instrs) && IsPlan(instrs, plan) && EnoughSlots(plan) && AreCorrectedCodes(instrs, plan, codes)
    requires e in plan.graph && EligibleEdge(instrs, e)
    requires IsFirstConsumer(instrs, plan.graph, e.producer, f) && e.producer < f <= e.consumer
    requires NeedsSlot(plan.minSafe, instrs[e.producer], e.producer, f)
    ensures EdgeClosed(Recode(instrs, codes), e)
  {
    var ins := instrs[e.producer];
    var k := IntervalIndex(instrs, plan, BarrierInterval(e.producer, f, ins.latency.barrier, ins.insKey));
    IntervalIsRetired(instrs, plan, codes, k, e.consumer);
  }

  /** A producer that needs no slot has its barrier closed. */
  lemma UnprotectedIsClosed(instrs: seq<DecodedInstruction>, plan: Plan, codes: seq<Word32>, p: nat, f: nat)
    requires AllValid(instrs) && IsPlan(instrs, plan) && EnoughSlots(plan) && AreCorrectedCodes(instrs, plan, codes)
    requires p < f < |instrs| && IsFirstConsumer(instrs, plan.graph, p, f) && instrs[p].latency.Variable?
    requires !NeedsSlot(plan.minSafe, instrs[p], p, f)
    ensures BarrierField(Recode(instrs, codes)[p].ctrlCode, instrs[p].latency.barrier) == -1
  {
    NoIntervalAt(instrs, plan, p, f);
    NoIntervalNoSlot(instrs, plan, p, instrs[p].latency.barrier);
    CorrectedBarrierField(instrs, plan, codes, p, instrs[p].latency.barrier);
  }

  /** A producer right before a consumer that needs no slot has a stall count. */
  lemma SpacingIsStall(minSafe: MarginTable, ins: DecodedInstruction, p: nat)
    requires ins.latency.Variable? && !NeedsSlot(minSafe, ins, p, p + 1)
    ensures ins.ctrlCode.GetStallCount() > 0
  {
  }

  /** A closed barrier protects nothing. */
  lemma ClosedProtectsNothing(ins: DecodedInstruction, kind: HazardType)
    requires IsBarrierEligible(ins.latency, RelevantAccessOf(kind)) &&
             BarrierField(ins.ctrlCode, ins.latency.barrier) == -1
    ensures !BarrierProtects(ins, kind)
  {
  }

  lemma UnprotectedAfter(instrs: seq<DecodedInstruction>, plan: Plan, codes: seq<Word32>, e: HazardEdge, f: nat)
    requires AllValid(instrs) && IsPlan(instrs, plan) && EnoughSlots(plan) && AreCorrectedCodes(instrs, plan, codes)
    requires e in plan.graph && EligibleEdge(instrs, e)
    requires IsFirstConsumer(instrs, plan.graph, e.producer, f) && e.producer < f < |instrs|
    requires !NeedsSlot(plan.minSafe, instrs[e.producer], e.producer, f)
    ensures !BarrierProtects(Recode(instrs, codes)[e.producer], e.kind)
  {
    UnprotectedIsClosed(instrs, plan, codes, e.producer, f);
    ClosedProtectsNothing(Recode(instrs, codes)[e.producer], e.kind);
  }

  lemma AdjacentStalls(instrs: seq<DecodedInstruction>, plan: Plan, codes: seq<Word32>, p: nat)
    requires AllValid(instrs) && IsPlan(instrs, plan) && EnoughSlots(plan) && AreCorrectedCodes(instrs, plan, codes)
    requires p < |instrs| && instrs[p].latency.Variable? && !NeedsSlot(plan.minSafe, instrs[p], p, p + 1)
    ensures Recode(instrs, codes)[p].ctrlCode.GetStallCount() > 0
  {
    StallAfter(instrs, plan, codes, p);
    SpacingIsStall(plan.minSafe, instrs[p], p);
  }

  /** A producer that needs no slot does not have a zero stall right before its consumer. */
  lemma UnprotectedStalls(instrs: seq<DecodedInstruction>, plan: Plan, codes: seq<Word32>, e: HazardEdge, f: nat)
    requires AllValid(instrs) && IsPlan(instrs, plan) && EnoughSlots(plan) && AreCorrectedCodes(instrs, plan, codes)
    requires e in plan.graph && EligibleEdge(instrs, e) && e.producer < f <= e.consumer == e.producer + 1
    requires !NeedsSlot(plan.minSafe, instrs[e.producer], e.producer, f)
    ensures Recode(instrs, codes)[e.producer].ctrlCode.GetStallCount() > 0
  {
    AdjacentStalls(instrs, plan, codes, e.producer);
  }

  /** An edge whose producer needs no slot is not protected by a barrier, nor adjacent to a zero stall. */
  lemma UnprotectedEdgeCloses(instrs: seq<DecodedInstruction>, plan: Plan, codes: seq<Word32>, e: HazardEdge, f: nat)
    requires AllValid(instrs) && IsPlan(instrs, plan) && EnoughSlots(plan) && AreCorrectedCodes(instrs, plan, codes)
    requires e in plan.graph && EligibleEdge(instrs, e)
    requires IsFirstConsumer(instrs, plan.graph, e.producer, f) && e.producer < f <= e.consumer
    requires !NeedsSlot(plan.minSafe, instrs[e.producer], e.producer, f)
    ensures EdgeClosed(Recode(instrs, codes), e)
  {
    UnprotectedAfter(instrs, plan, codes, e, f);
    if e.consumer == e.producer + 1 {
      UnprotectedStalls(instrs, plan, codes, e, f);
    }
  }

  lemma EligibleEdgeCloses(instrs: seq<DecodedInstruction>, plan: Plan, codes: seq<Word32>, e: HazardEdge)
    requires AllValid(instrs) && IsPlan(instrs, plan) && EnoughSlots(plan) && AreCorrectedCodes(instrs, plan, codes)
    requires e in plan.graph && EligibleEdge(instrs, e)
    ensures EdgeClosed(Recode(instrs, codes), e)
  {
    var f := FirstConsumerExists(instrs, plan.graph, e);
    if NeedsSlot(plan.minSafe, instrs[e.producer], e.producer, f) {
      ProtectedEdgeCloses(instrs, plan, codes, e, f);
    } else {
      UnprotectedEdgeCloses(instrs, plan, codes, e, f);
    }
  }

  lemma OtherEdgeCloses(instrs: seq<DecodedInstruction>, plan: Plan, codes: seq<Word32>, e: HazardEdge)
    requires AllValid(instrs) && IsPlan(instrs, plan) && EnoughSlots(plan) && AreCorrectedCodes(instrs, plan, codes)
    requires e in plan.graph && !EligibleEdge(instrs, e)
    ensures EdgeClosed(Recode(instrs, codes), e)
  {
    RecodedFields(instrs, plan, codes, e.producer);
  }

  /** Once slots are assigned, the recomputed codes close every hazard edge: the self-check cannot fail. */
  lemma CorrectionClosesEverything(instrs: seq<DecodedInstruction>, plan: Plan, codes: seq<Word32>)
    requires AllValid(instrs) && IsPlan(instrs, plan) && EnoughSlots(plan) && AreCorrectedCodes(instrs, plan, codes)
    ensures forall e :: e in plan.graph ==> EdgeClosed(Recode(instrs, codes), e)
    ensures forall v :: !IsViolation(Recode(instrs, codes), plan.graph, v)
  {
    forall e | e in plan.graph
      ensures EdgeClosed(Recode(instrs, codes), e)
    {
      if EligibleEdge(instrs, e) {
        EligibleEdgeCloses(instrs, plan, codes, e);
      } else {
        OtherEdgeCloses(instrs, plan, codes, e);
      }
    }
  }
}
