/** Corrected images pass verification. */
module CorrectedCubins {
  import opened Wrappers
  import opened Bytes
  import opened ControlCode
  import opened DecodedInstructions
  import opened ControlFlow
  import opened HazardGraph
  import opened Scoreboard
  import opened Correction
  import opened CorrectionProperties
  import opened Corrector
  import opened InstructionPacking
  import opened CubinPatching
  import BarrierIntervals

  /** What verification looks for: every hazard is closed. */
  ghost predicate AllClosed(instrs: seq<DecodedInstruction>)
    requires AllValid(instrs)
  {
    && Resolves(instrs)
    && forall e: HazardEdge :: IsHazard(instrs, CfgOf(instrs), e) ==>
         e.producer < e.consumer < |instrs| && EdgeClosed(instrs, e)
  }

  /** A corrected kernel has all its own hazards closed. */
  lemma {:induction false} CorrectedAllClosed(instrs: seq<DecodedInstruction>, plan: Plan, codes: seq<Word32>)
    requires AllValid(instrs) && IsPlan(instrs, plan) && EnoughSlots(plan) && AreCorrectedCodes(instrs, plan, codes)
    ensures AllValid(Recode(instrs, codes)) && AllClosed(Recode(instrs, codes))
  {
    GraphSame(instrs, codes, plan.graph);
    CorrectionClosesEverything(instrs, plan, codes);
  }

  /** The control codes of the instruction words of a section are the ones it was patched with. */
  lemma {:induction false} PatchedCodes(before: seq<Byte>, after: seq<Byte>, codes: seq<nat>, ctrl: seq<nat>)
    requires Recoded(before, after, codes) && |ctrl| == |Words(after, 16)|
    requires forall i :: 0 <= i < |ctrl| ==> ctrl[i] == ControlBits(Words(after, 16)[i])
    ensures ctrl == codes
  {
  }

  /**
   Verifies one section of a patched image, decoded to the same instructions with the control codes
   that the section now holds. A corrected section is always verified.
   */
  method VerifyPatched(after: seq<Byte>, s: Section, decoded: seq<DecodedInstruction>, ghost bytes: seq<Byte>,
                       ghost status: CheckStatus, ghost plan: Plan, ghost codes: seq<nat>)
    returns (r: Result<CheckStatus, CfgError>)
    requires s.offset + s.size <= |after| == |bytes| && s.size % 16 == 0
    requires AllValid(decoded) && |decoded| == s.size / 16
    requires SectionDone(bytes, after, s, decoded, status, plan, codes) && status.Corrected?
    ensures r == Success(Verified)
  {
    var contents := Contents(after, s);
    var split := SplitCtrlCode7x8x(contents);
    PatchedCodes(Contents(bytes, s), contents, codes, split.value.0);
    var ctrl: seq<Word32> := split.value.0;
    CorrectedAllClosed(decoded, plan, ctrl);
    r := VerifyControlCodes(Recode(decoded, ctrl));
  }

  /** Corrects an image, and verifies every kernel of the image that is written: all of them pass. */
  method CorrectThenVerify(bytes: seq<Byte>, sections: seq<Section>, decoded: seq<seq<DecodedInstruction>>,
                           minSafe: BarrierIntervals.MarginTable)
    returns (r: Result<Report, PatchError>, verdicts: seq<Result<CheckStatus, CfgError>>)
    requires InImage(bytes, sections) && Disjoint(sections) && Aligned(sections, decoded)
    ensures r.Success? && r.value.image.Some? ==>
              |verdicts| == |sections| && forall k :: 0 <= k < |verdicts| ==> verdicts[k] == Success(Verified)
  {
    verdicts := [];
    ghost var after, plans, codes;
    r, after, plans, codes := CorrectCubinControlCodes(bytes, sections, decoded, minSafe);
    if r.Failure? || r.value.image.None? {
      return;
    }
    for k := 0 to |sections|
      invariant |verdicts| == k && forall j :: 0 <= j < k ==> verdicts[j] == Success(Verified)
    {
      ghost var status := r.value.statuses[k];
      assert SectionDone(bytes, after, sections[k], decoded[k], status, plans[k], codes[k]);
      var verdict := VerifyPatched(r.value.image.value, sections[k], decoded[k], bytes, status, plans[k], codes[k]);
      verdicts := verdicts + [verdict];
    }
  }
}
