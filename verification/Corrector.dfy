/** Verifying and correcting one kernel. */
module Corrector {
  import opened Wrappers
  import opened ControlCode
  import opened DecodedInstructions
  import opened ControlFlow
  import opened HazardGraph
  import opened Scoreboard
  import opened BarrierIntervals
  import opened SlotAssignment
  import opened Correction

  datatype CheckStatus =
    | Verified
    | Violated(violations: set<HazardViolation>)
    | Corrected(slotsUsed: nat)
    | Unrepairable

  /** One kernel's text section, split into control codes and instruction codes. */
  class KernelControlCodes {
    var sectionOffset: nat
    var sectionSize: nat
    var ctrlCodeList: seq<Word32>
    var insCodeList: seq<nat>

    constructor (offset: nat, size: nat, ctrl: seq<Word32>, ins: seq<nat>)
      ensures sectionOffset == offset && sectionSize == size && ctrlCodeList == ctrl && insCodeList == ins
    {
      sectionOffset, sectionSize, ctrlCodeList, insCodeList := offset, size, ctrl, ins;
    }
  }

  lemma GraphIsForward(instrs: seq<DecodedInstruction>, graph: set<HazardEdge>)
    requires AllValid(instrs) && IsGraphOf(instrs, graph)
    ensures GraphOver(|instrs|, graph)
  {
    forall e | e in graph
      ensures e.producer < e.consumer < |instrs|
    {
      HazardForward(instrs, CfgOf(instrs), e);
    }
  }

  /** Verified exactly when every hazard of the kernel is closed by its current control codes. */
  method VerifyControlCodes(decoded: seq<DecodedInstruction>) returns (r: Result<CheckStatus, CfgError>)
    requires AllValid(decoded)
    ensures r.Failure? <==> !Resolves(decoded)
    ensures r.Failure? ==> IsFirstError(decoded, r.error)
    ensures r.Success? ==> r.value.Verified? || r.value.Violated?
    ensures r.Success? ==>
              (r.value.Verified? <==>
               forall e: HazardEdge :: IsHazard(decoded, CfgOf(decoded), e) ==>
                         e.producer < e.consumer < |decoded| && EdgeClosed(decoded, e))
    ensures r.Success? && r.value.Violated? ==>
              forall v :: v in r.value.violations <==>
                          && IsHazard(decoded, CfgOf(decoded), v.edge)
                          && v.edge.producer < v.edge.consumer < |decoded| && Complaint(decoded, v.edge, v.reason)
  {
    var g := BuildHazardGraph(decoded);
    if g.Failure? {
      return Failure(g.error);
    }
    var graph := g.value;
    GraphIsForward(decoded, graph);
    var violations := SimulateAndVerify(decoded, graph);
    if violations == {} {
      forall e: HazardEdge | IsHazard(decoded, CfgOf(decoded), e)
        ensures e.producer < e.consumer < |decoded| && EdgeClosed(decoded, e)
      {
        assert e in graph;
        var access := RelevantAccessOf(e.kind);
        var reason := if BarrierProtects(decoded[e.producer], e.kind) then NeverWaited(access) else AdjacentZeroStall;
        var v := HazardViolation(e, reason);
        assert v !in violations;
        assert IsViolation(decoded, graph, v) <==> !EdgeClosed(decoded, e);
      }
      return Success(Verified);
    }
    var v :| v in violations;
    assert IsViolation(decoded, graph, v);
    assert IsHazard(decoded, CfgOf(decoded), v.edge);
    return Success(Violated(violations));
  }

  /** The wait masks and scoreboard fields that the slot assignment calls for. */
  method PlaceBarriers(n: nat, ivs: seq<BarrierInterval>, assignment: BarrierAssignment, ghost colors: seq<nat>)
    returns (waitMask: array<nat>, writeBarOf: array<int>, readBarOf: array<int>)
    requires AssignsColors(ivs, colors, assignment) && SortedByProducer(ivs)
    requires forall k :: 0 <= k < |ivs| ==> ivs[k].producer < n && ivs[k].firstConsumer < n
    ensures fresh(waitMask) && fresh(writeBarOf) && fresh(readBarOf)
    ensures waitMask.Length == writeBarOf.Length == readBarOf.Length == n
    ensures forall i :: 0 <= i < n ==> waitMask[i] == MaskOf(ivs, colors, i, |ivs|)
    ensures forall i :: 0 <= i < n ==> writeBarOf[i] == BarOf(ivs, colors, i, WRITE_BARRIER, |ivs|)
    ensures forall i :: 0 <= i < n ==> readBarOf[i] == BarOf(ivs, colors, i, READ_BARRIER, |ivs|)
  {
    waitMask := new nat[n](_ => 0);
    writeBarOf := new int[n](_ => -1);
    readBarOf := new int[n](_ => -1);
    for k := 0 to |ivs|
      invariant forall i :: 0 <= i < n ==> waitMask[i] == MaskOf(ivs, colors, i, k)
      invariant forall i :: 0 <= i < n ==> writeBarOf[i] == BarOf(ivs, colors, i, WRITE_BARRIER, k)
      invariant forall i :: 0 <= i < n ==> readBarOf[i] == BarOf(ivs, colors, i, READ_BARRIER, k)
    {
      var iv := ivs[k];
      var slot := assignment.slotOf[iv.producer];
      waitMask[iv.firstConsumer] := SetBit(waitMask[iv.firstConsumer], slot);
      if iv.direction == WRITE_BARRIER {
        writeBarOf[iv.producer] := slot;
      } else {
        readBarOf[iv.producer] := slot;
      }
    }
  }

  /** The stall counts that only adjacent, barrier-free hazards call for. */
  method RequiredStalls(decoded: seq<DecodedInstruction>, graph: set<HazardEdge>) returns (requiredStall: array<nat>)
    requires GraphOver(|decoded|, graph)
    ensures fresh(requiredStall) && requiredStall.Length == |decoded|
    ensures forall i :: 0 <= i < |decoded| ==> requiredStall[i] == if NeedsStall(decoded, graph, i) then 1 else 0
  {
    requiredStall := new nat[|decoded|](_ => 0);
    var todo := graph;
    while todo != {}
      invariant todo <= graph
      invariant forall i :: 0 <= i < |decoded| ==>
                  requiredStall[i] == if NeedsStall(decoded, graph - todo, i) then 1 else 0
    {
      var e :| e in todo;
      ghost var seen, seen' := graph - todo, graph - (todo - {e});
      assert seen' == seen + {e};
      forall i: nat | i < |decoded|
        ensures NeedsStall(decoded, seen', i) <==>
                NeedsStall(decoded, seen, i) || (e.producer == i && e.consumer == i + 1 && !EligibleEdge(decoded, e))
      {
        assert e in seen';
      }
      if !IsBarrierEligible(decoded[e.producer].latency, RelevantAccessOf(e.kind)) && e.consumer == e.producer + 1 {
        requiredStall[e.producer] := Max(requiredStall[e.producer], 1);
      }
      todo := todo - {e};
    }
    assert graph - todo == graph;
  }

  /** The new control code of every instruction. The stall-overflow exit of the loop is dead. */
  method MergeCodes(decoded: seq<DecodedInstruction>, ghost plan: Plan,
                    waitMask: array<nat>, writeBarOf: array<int>, readBarOf: array<int>, requiredStall: array<nat>)
    returns (newCodes: seq<Word32>)
    requires AllValid(decoded) && IsPlan(decoded, plan) && EnoughSlots(plan)
    requires waitMask.Length == writeBarOf.Length == readBarOf.Length == requiredStall.Length == |decoded|
    requires forall i :: 0 <= i < |decoded| ==> waitMask[i] == MaskOf(plan.ivs, plan.colors, i, |plan.ivs|)
    requires forall i :: 0 <= i < |decoded| ==>
             writeBarOf[i] == BarOf(plan.ivs, plan.colors, i, WRITE_BARRIER, |plan.ivs|)
    requires forall i :: 0 <= i < |decoded| ==>
             readBarOf[i] == BarOf(plan.ivs, plan.colors, i, READ_BARRIER, |plan.ivs|)
    requires forall i :: 0 <= i < |decoded| ==> requiredStall[i] == if NeedsStall(decoded, plan.graph, i) then 1 else 0
    ensures AreCorrectedCodes(decoded, plan, newCodes)
  {
    newCodes := [];
    for i := 0 to |decoded|
      invariant |newCodes| == i
      invariant forall j :: 0 <= j < i ==>
                  var cc := CorrectedFields(decoded, plan, j);
                  cc.Valid() && newCodes[j] == MergeCode(cc.barrier, cc.read, cc.write, cc.yieldFlag, cc.stall)
    {
      CorrectedFieldsValid(decoded, plan, i);
      ghost var cc := CorrectedFields(decoded, plan, i);
      var waitbar := waitMask[i];
      var readbar := FieldOfSlot(readBarOf[i]);
      var writebar := FieldOfSlot(writeBarOf[i]);
      var yieldFlag := if decoded[i].ctrlCode.IsYield() then 0 else 1;
      var stall := Max(decoded[i].ctrlCode.GetStallCount(), requiredStall[i]);
      assert cc == CuControlCode(waitbar, readbar, writebar, yieldFlag, stall);
      if stall > MAX_STALL {
        assert false; // the stall-overflow exit
      }
      newCodes := newCodes + [MergeCode(waitbar, readbar, writebar, yieldFlag, stall)];
    }
  }

  /**
   Rewrites the kernel's control codes, or leaves them alone when the slots do not suffice.
   The exit for a failed self-check is dead.
   */
  method CorrectControlCodes(kcc: KernelControlCodes, decoded: seq<DecodedInstruction>, minSafe: MarginTable)
    returns (r: Result<CheckStatus, CfgError>, ghost plan: Plan)
    requires AllValid(decoded)
    modifies kcc`ctrlCodeList
    ensures r.Failure? <==> !Resolves(decoded)
    ensures r.Failure? ==> IsFirstError(decoded, r.error)
    ensures r.Failure? ==> kcc.ctrlCodeList == old(kcc.ctrlCodeList)
    ensures r.Success? ==> IsPlan(decoded, plan) && plan.minSafe == minSafe
    ensures r.Success? ==> r.value == if EnoughSlots(plan) then Corrected(NumColors(plan.colors)) else Unrepairable
    ensures r.Success? && r.value.Corrected? ==> AreCorrectedCodes(decoded, plan, kcc.ctrlCodeList)
    ensures r.Success? && r.value.Unrepairable? ==> kcc.ctrlCodeList == old(kcc.ctrlCodeList)
  {
    plan := Plan(minSafe, {}, [], [], []);
    var g := BuildHazardGraph(decoded);
    if g.Failure? {
      return Failure(g.error), plan;
    }
    var graph := g.value;
    GraphIsForward(decoded, graph);
    var ivs := CollectBarrierIntervals(minSafe, decoded, graph);
    var assignment, group, colors := AssignBarrierSlots(ivs);
    plan := Plan(minSafe, graph, ivs, group, colors);
    assert IsPlan(decoded, plan);
    if assignment == None {
      return Success(Unrepairable), plan;
    }

    forall k | 0 <= k < |ivs|
      ensures ivs[k].producer < |decoded| && ivs[k].firstConsumer < |decoded|
    {
      assert ivs[k] in ivs && IsInterval(minSafe, decoded, graph, ivs[k]);
    }
    var waitMask, writeBarOf, readBarOf := PlaceBarriers(|decoded|, ivs, assignment.value, colors);
    var requiredStall := RequiredStalls(decoded, graph);

    var newCodes := MergeCodes(decoded, plan, waitMask, writeBarOf, readBarOf, requiredStall);
    var corrected := Recode(decoded, newCodes);
    var residual := SimulateAndVerify(corrected, graph);
    CorrectionClosesEverything(decoded, plan, newCodes);
    if residual != {} {
      assert false; // the failed-self-check exit
    }
    kcc.ctrlCodeList := newCodes;
    return Success(Corrected(assignment.value.slotsUsed)), plan;
  }
}
