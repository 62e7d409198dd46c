/** Control-flow successors inside one kernel. */
module ControlFlow {
  import opened Wrappers
  import opened DecodedInstructions

  datatype FlowKind = FallsThrough | Exits | Branches

  datatype CfgError =
    | UnresolvableBranch(at: nat)
    | TooFewInstructions
    | NonPositiveStride
    | TargetOutside(at: nat)

  /** What an opcode does to control flow. Calls and convergence bookkeeping fall through. */
  function FlowOf(opcode: string): FlowKind {
    if opcode == "EXIT" || opcode == "RET" then Exits
    else if opcode in {"BRA", "JMP", "BRX", "BRXU", "JMX", "JMXU"} then Branches
    else FallsThrough
  }

  predicate EndsWith(s: string, suffix: string) {
    |suffix| <= |s| && s[|s| - |suffix|..] == suffix
  }

  /** A direct branch whose target is a plain immediate. */
  predicate Resolvable(insKey: string, insVals: seq<int>) {
    Opcode(insKey) in {"BRA", "JMP"} && EndsWith(insKey, "_II") && insVals != []
  }

  predicate IsAbsolute(insModi: seq<string>) { "0_ABS" in insModi }

  /** The instruction stride, inferred from the first two addresses. */
  function InstructionLength(instrs: seq<DecodedInstruction>): Result<int, CfgError> {
    if |instrs| < 2 then Failure(TooFewInstructions)
    else if instrs[1].address <= instrs[0].address then Failure(NonPositiveStride)
    else Success(instrs[1].address - instrs[0].address)
  }

  /** Each address with the first index that carries it, for the first `n` instructions. */
  function AddressIndex(instrs: seq<DecodedInstruction>, n: nat): (m: map<nat, nat>)
    requires n <= |instrs|
    ensures forall a :: a in m ==> m[a] < n && instrs[m[a]].address == a
  {
    if n == 0 then map[]
    else
      var m := AddressIndex(instrs, n - 1);
      var a := instrs[n - 1].address;
      if a in m then m else m[a := n - 1]
  }

  /** Every address is found, at the first instruction that carries it. */
  lemma {:induction false} AddressIndexFindsFirst(instrs: seq<DecodedInstruction>, n: nat, k: nat)
    requires k < n <= |instrs|
    ensures instrs[k].address in AddressIndex(instrs, n)
    ensures AddressIndex(instrs, n)[instrs[k].address] <= k
  {
    if k < n - 1 {
      AddressIndexFindsFirst(instrs, n - 1, k);
    }
  }

  /** The index that branch `i` goes to, for a stride and an address index. */
  function TargetIn(ins: DecodedInstruction, i: nat, length: Result<int, CfgError>,
                    index: map<nat, nat>): Result<nat, CfgError>
    requires ins.insVals != []
  {
    var immediate := ins.insVals[|ins.insVals| - 1];
    if !IsAbsolute(ins.insModi) && length.Failure? then Failure(length.error)
    else
      var target := if IsAbsolute(ins.insModi) then immediate else immediate + ins.address + length.value;
      if target >= 0 && target in index then Success(index[target]) else Failure(TargetOutside(i))
  }

  /** A target depends on the branch, the stride and the address index only. */
  lemma TargetSame(x: DecodedInstruction, y: DecodedInstruction, i: nat, length: Result<int, CfgError>,
                   index: map<nat, nat>)
    requires x.insVals == y.insVals != [] && x.insModi == y.insModi && x.address == y.address
    ensures TargetIn(x, i, length, index) == TargetIn(y, i, length, index)
  {
  }

  /** The index a taken branch at `i` goes to. */
  function BranchTarget(instrs: seq<DecodedInstruction>, i: nat): (r: Result<nat, CfgError>)
    requires i < |instrs| && instrs[i].insVals != []
    ensures r.Success? ==> r.value < |instrs|
  {
    TargetIn(instrs[i], i, InstructionLength(instrs), AddressIndex(instrs, |instrs|))
  }

  function FallThrough(instrs: seq<DecodedInstruction>, i: nat): seq<nat> {
    if i + 1 < |instrs| then [i + 1] else []
  }

  /** The successors of instruction `i`, or the error that resolving them raises. */
  function SuccessorsOf(instrs: seq<DecodedInstruction>, i: nat): (r: Result<seq<nat>, CfgError>)
    requires AllValid(instrs) && i < |instrs|
    ensures r.Success? ==> |r.value| <= 2 && forall s :: s in r.value ==> s < |instrs|
  {
    var ins := instrs[i];
    var guard := GuardKindOf(ins);
    match FlowOf(Opcode(ins.insKey))
    case FallsThrough => Success(FallThrough(instrs, i))
    case Exits => Success(if guard != AlwaysTrue then FallThrough(instrs, i) else [])
    case Branches =>
      if !Resolvable(ins.insKey, ins.insVals) then Failure(UnresolvableBranch(i))
      else if guard == AlwaysFalse then Success(FallThrough(instrs, i))
      else
        var target := BranchTarget(instrs, i);
        if target.Failure? then Failure(target.error)
        else Success([target.value] + if guard != AlwaysTrue then FallThrough(instrs, i) else [])
  }

  /** A successor table in which every entry is an instruction index. */
  predicate Closed(succ: seq<seq<nat>>) {
    forall i, s :: 0 <= i < |succ| && s in succ[i] ==> s < |succ|
  }

  /** Every branch of the kernel has a known target. */
  ghost predicate Resolves(instrs: seq<DecodedInstruction>)
    requires AllValid(instrs)
  {
    forall i :: 0 <= i < |instrs| ==> SuccessorsOf(instrs, i).Success?
  }

  /** The successor table of a kernel that resolves. */
  ghost function CfgOf(instrs: seq<DecodedInstruction>): (succ: seq<seq<nat>>)
    requires AllValid(instrs) && Resolves(instrs)
    ensures |succ| == |instrs| && Closed(succ)
  {
    seq(|instrs|, i requires 0 <= i < |instrs| => SuccessorsOf(instrs, i).value)
  }

  method BuildAddressIndex(instrs: seq<DecodedInstruction>) returns (index: map<nat, nat>)
    ensures index == AddressIndex(instrs, |instrs|)
  {
    index := map[];
    for k := 0 to |instrs|
      invariant index == AddressIndex(instrs, k)
    {
      if instrs[k].address !in index {
        index := index[instrs[k].address := k];
      }
    }
  }

  /** What was computed so far of the stride and the address index. */
  ghost predicate CachesHold(instrs: seq<DecodedInstruction>, index: map<nat, nat>, length: Option<int>) {
    && (index == map[] || index == AddressIndex(instrs, |instrs|))
    && (length.Some? ==> InstructionLength(instrs) == Success(length.value))
  }

  /** The target of a branch; computes the stride and the address index the first time they are needed. */
  method ResolveTarget(instrs: seq<DecodedInstruction>, i: nat, index: map<nat, nat>, length: Option<int>)
    returns (r: Result<nat, CfgError>, addrToIndex: map<nat, nat>, instructionLength: Option<int>)
    requires i < |instrs| && instrs[i].insVals != [] && CachesHold(instrs, index, length)
    ensures r == BranchTarget(instrs, i) && CachesHold(instrs, addrToIndex, instructionLength)
  {
    addrToIndex, instructionLength := index, length;
    var ins := instrs[i];
    var target := ins.insVals[|ins.insVals| - 1];
    if !IsAbsolute(ins.insModi) {
      if instructionLength == None {
        var len := InstructionLength(instrs);
        if len.Failure? {
          return Failure(len.error), addrToIndex, instructionLength;
        }
        instructionLength := Some(len.value);
      }
      target := target + ins.address + instructionLength.value;
    }
    if addrToIndex == map[] {
      addrToIndex := BuildAddressIndex(instrs);
    }
    r := if target >= 0 && target in addrToIndex then Success(addrToIndex[target]) else Failure(TargetOutside(i));
  }

  /** The successors of an instruction that is no branch. */
  lemma NoBranch(instrs: seq<DecodedInstruction>, i: nat)
    requires AllValid(instrs) && i < |instrs| && FlowOf(Opcode(instrs[i].insKey)) != Branches
    ensures SuccessorsOf(instrs, i) ==
            Success(if FlowOf(Opcode(instrs[i].insKey)) == FallsThrough || GuardKindOf(instrs[i]) != AlwaysTrue
                    then FallThrough(instrs, i) else [])
  {
  }

  /** A branch without a known target, and one that is never taken. */
  lemma OtherBranch(instrs: seq<DecodedInstruction>, i: nat)
    requires AllValid(instrs) && i < |instrs| && FlowOf(Opcode(instrs[i].insKey)) == Branches
    ensures !Resolvable(instrs[i].insKey, instrs[i].insVals) ==>
            SuccessorsOf(instrs, i) == Failure(UnresolvableBranch(i))
    ensures Resolvable(instrs[i].insKey, instrs[i].insVals) && GuardKindOf(instrs[i]) == AlwaysFalse ==>
              SuccessorsOf(instrs, i) == Success(FallThrough(instrs, i))
  {
  }

  /** The successors of a resolvable branch that may be taken. */
  lemma TakenBranch(instrs: seq<DecodedInstruction>, i: nat)
    requires AllValid(instrs) && i < |instrs| && FlowOf(Opcode(instrs[i].insKey)) == Branches
    requires Resolvable(instrs[i].insKey, instrs[i].insVals) && GuardKindOf(instrs[i]) != AlwaysFalse
    ensures var target := BranchTarget(instrs, i);
            SuccessorsOf(instrs, i) ==
              if target.Failure? then Failure(target.error)
              else Success([target.value] + if GuardKindOf(instrs[i]) != AlwaysTrue then FallThrough(instrs, i) else [])
  {
  }

  /** The error that the first instruction without known successors raises. */
  ghost predicate IsFirstError(instrs: seq<DecodedInstruction>, error: CfgError)
    requires AllValid(instrs)
  {
    exists i :: && 0 <= i < |instrs|
                && SuccessorsOf(instrs, i) == Failure(error)
                && forall j :: 0 <= j < i ==> SuccessorsOf(instrs, j).Success?
  }

  /**
   Successor lists of a whole kernel. The address index and the stride are computed lazily,
   the first time a branch needs them; the first unresolvable branch ends the computation.
   */
  method ComputeControlFlowSuccessors(instrs: seq<DecodedInstruction>) returns (r: Result<seq<seq<nat>>, CfgError>)
    requires AllValid(instrs)
    ensures r.Success? ==> Resolves(instrs) && r.value == CfgOf(instrs)
    ensures r.Failure? ==> IsFirstError(instrs, r.error)
  {
    var succ: seq<seq<nat>> := [];
    var addrToIndex: map<nat, nat> := map[];
    var instructionLength: Option<int> := None;
    for i := 0 to |instrs|
      invariant |succ| == i
      invariant forall j :: 0 <= j < i ==> SuccessorsOf(instrs, j) == Success(succ[j])
      invariant CachesHold(instrs, addrToIndex, instructionLength)
    {
      var ins := instrs[i];
      var flow, guard := FlowOf(Opcode(ins.insKey)), GuardKindOf(ins);
      var next: seq<nat> := [];
      if flow == FallsThrough {
        NoBranch(instrs, i);
        next := FallThrough(instrs, i);
      } else if flow == Exits {
        NoBranch(instrs, i);
        if guard != AlwaysTrue {
          next := FallThrough(instrs, i);
        }
      } else {
        OtherBranch(instrs, i);
        if !Resolvable(ins.insKey, ins.insVals) {
          return Failure(UnresolvableBranch(i));
        }
        if guard != AlwaysFalse {
          TakenBranch(instrs, i);
          var target;
          target, addrToIndex, instructionLength := ResolveTarget(instrs, i, addrToIndex, instructionLength);
          if target.Failure? {
            return Failure(target.error);
          }
          next := [target.value];
        }
        if guard != AlwaysTrue {
          next := next + FallThrough(instrs, i);
        }
      }
      assert next + [] == next && [] + FallThrough(instrs, i) == FallThrough(instrs, i);
      assert SuccessorsOf(instrs, i) == Success(next);
      succ := succ + [next];
    }
    return Success(succ);
  }

  // ---------- What the successors are ----------

  /** A key that starts with an opcode, alone or in front of an underscore. */
  predicate KeyOf(insKey: string, opcode: string) {
    insKey == opcode || opcode + "_" <= insKey
  }

  lemma {:induction false} OpcodeOfKey(insKey: string, opcode: string)
    requires '_' !in opcode
    ensures Opcode(insKey) == opcode <==> KeyOf(insKey, opcode)
  {
    if insKey != "" && insKey[0] != '_' {
      if opcode != "" {
        OpcodeOfKey(insKey[1..], opcode[1..]);
        assert opcode == [opcode[0]] + opcode[1..] && insKey == [insKey[0]] + insKey[1..];
        assert opcode + "_" == [opcode[0]] + (opcode[1..] + "_");
      }
    }
  }

  predicate IsBranch(insKey: string) {
    || KeyOf(insKey, "BRA") || KeyOf(insKey, "JMP") || KeyOf(insKey, "BRX")
    || KeyOf(insKey, "BRXU") || KeyOf(insKey, "JMX") || KeyOf(insKey, "JMXU")
  }

  /** A branch to a place that is known. */
  predicate IsDirect(insKey: string) {
    (KeyOf(insKey, "BRA") || KeyOf(insKey, "JMP")) && |insKey| >= 3 && insKey[|insKey| - 3..] == "_II"
  }

  lemma FlowOpcodes(insKey: string)
    ensures FlowOf(Opcode(insKey)) == Exits <==> KeyOf(insKey, "EXIT") || KeyOf(insKey, "RET")
    ensures FlowOf(Opcode(insKey)) == Branches <==> IsBranch(insKey)
  {
    OpcodeOfKey(insKey, "EXIT");
    OpcodeOfKey(insKey, "RET");
    OpcodeOfKey(insKey, "BRA");
    OpcodeOfKey(insKey, "JMP");
    OpcodeOfKey(insKey, "BRX");
    OpcodeOfKey(insKey, "BRXU");
    OpcodeOfKey(insKey, "JMX");
    OpcodeOfKey(insKey, "JMXU");
  }

  lemma DirectMeaning(insKey: string, insVals: seq<int>)
    ensures Resolvable(insKey, insVals) <==> IsDirect(insKey) && insVals != []
    ensures IsDirect(insKey) ==> IsBranch(insKey)
  {
    OpcodeOfKey(insKey, "BRA");
    OpcodeOfKey(insKey, "JMP");
  }

  /**
   The address a branch to a known place goes to: its last value, which counts from the next
   instruction unless the branch is absolute.
   */
  predicate GoesTo(instrs: seq<DecodedInstruction>, i: nat, address: int)
    requires i < |instrs| && instrs[i].insVals != []
  {
    var ins := instrs[i];
    var last := ins.insVals[|ins.insVals| - 1];
    if "0_ABS" in ins.insModi then address == last
    else
      && |instrs| >= 2 && instrs[0].address < instrs[1].address
      && address == last + ins.address + (instrs[1].address - instrs[0].address)
  }

  /** Why a branch goes nowhere: there is no stride to count from, or no instruction at its address. */
  function TargetError(instrs: seq<DecodedInstruction>, i: nat): CfgError
    requires i < |instrs|
  {
    if "0_ABS" in instrs[i].insModi then TargetOutside(i)
    else if |instrs| < 2 then TooFewInstructions
    else if instrs[1].address <= instrs[0].address then NonPositiveStride
    else TargetOutside(i)
  }

  lemma TargetMeaning(instrs: seq<DecodedInstruction>, i: nat)
    requires i < |instrs| && instrs[i].insVals != []
    ensures var target := BranchTarget(instrs, i);
            && (target.Success? <==> exists k :: 0 <= k < |instrs| && GoesTo(instrs, i, instrs[k].address))
            && (target.Success? ==>
                  && target.value < |instrs| && GoesTo(instrs, i, instrs[target.value].address)
                  && forall k :: 0 <= k < target.value ==> !GoesTo(instrs, i, instrs[k].address))
            && (target.Failure? ==> target.error == TargetError(instrs, i))
  {
    var ins := instrs[i];
    var last := ins.insVals[|ins.insVals| - 1];
    if "0_ABS" in ins.insModi {
      AddressFound(instrs, last);
    } else if |instrs| >= 2 && instrs[0].address < instrs[1].address {
      AddressFound(instrs, last + ins.address + (instrs[1].address - instrs[0].address));
    }
  }

  /** The address index finds exactly the addresses of instructions, at the first instruction there. */
  lemma {:induction false} AddressFound(instrs: seq<DecodedInstruction>, address: int)
    ensures var index := AddressIndex(instrs, |instrs|);
            && (address >= 0 && address in index <==> exists k :: 0 <= k < |instrs| && instrs[k].address == address)
            && (address >= 0 && address in index ==>
                  && index[address] < |instrs| && instrs[index[address]].address == address
                  && forall k :: 0 <= k < index[address] ==> instrs[k].address != address)
  {
    forall k: nat | k < |instrs| && instrs[k].address == address
      ensures address in AddressIndex(instrs, |instrs|) && AddressIndex(instrs, |instrs|)[address] <= k
    {
      AddressIndexFindsFirst(instrs, |instrs|, k);
    }
  }

  /** A guard value whose low four bits are 7 always holds, 15 never does. */
  lemma GuardMeaning(ins: DecodedInstruction)
    requires |ins.insVals| >= 1
    ensures GuardKindOf(ins) == AlwaysTrue <==> ins.insVals[0] % 16 == 7
    ensures GuardKindOf(ins) == AlwaysFalse <==> ins.insVals[0] % 16 == 15
  {
  }

  /**
   The successors of a branch with a known place: the first instruction at its address, unless the
   guard never holds, and the next instruction, unless the guard always holds.
   */
  lemma BranchSuccessors(instrs: seq<DecodedInstruction>, i: nat)
    requires AllValid(instrs) && i < |instrs|
    requires IsDirect(instrs[i].insKey)
    ensures var s, guard := SuccessorsOf(instrs, i), instrs[i].insVals[0] % 16;
            if guard == 15 then s == Success(FallThrough(instrs, i))
            else
              && (s.Success? <==> exists k :: 0 <= k < |instrs| && GoesTo(instrs, i, instrs[k].address))
              && (s.Success? ==>
                    && s.value != [] && GoesTo(instrs, i, instrs[s.value[0]].address)
                    && (forall k :: 0 <= k < s.value[0] ==> !GoesTo(instrs, i, instrs[k].address))
                    && s.value[1..] == if guard == 7 then [] else FallThrough(instrs, i))
              && (s.Failure? ==> s.error == TargetError(instrs, i))
  {
    FlowOpcodes(instrs[i].insKey);
    DirectMeaning(instrs[i].insKey, instrs[i].insVals);
    GuardMeaning(instrs[i]);
    OtherBranch(instrs, i);
    if instrs[i].insVals[0] % 16 != 15 {
      TakenBranch(instrs, i);
      TargetMeaning(instrs, i);
    }
  }

  /** An exit or a return ends the path, unless its guard may fail. */
  lemma ExitSuccessors(instrs: seq<DecodedInstruction>, i: nat)
    requires AllValid(instrs) && i < |instrs| && (KeyOf(instrs[i].insKey, "EXIT") || KeyOf(instrs[i].insKey, "RET"))
    ensures SuccessorsOf(instrs, i) == Success(if instrs[i].insVals[0] % 16 == 7 then [] else FallThrough(instrs, i))
  {
    FlowOpcodes(instrs[i].insKey);
    GuardMeaning(instrs[i]);
    NoBranch(instrs, i);
  }

  /** The successors of any other branch are not known. */
  lemma UnknownSuccessors(instrs: seq<DecodedInstruction>, i: nat)
    requires AllValid(instrs) && i < |instrs| && IsBranch(instrs[i].insKey) && !IsDirect(instrs[i].insKey)
    ensures SuccessorsOf(instrs, i) == Failure(UnresolvableBranch(i))
  {
    FlowOpcodes(instrs[i].insKey);
    DirectMeaning(instrs[i].insKey, instrs[i].insVals);
    OtherBranch(instrs, i);
  }

  /** Every other instruction is followed by the next one. */
  lemma PlainSuccessors(instrs: seq<DecodedInstruction>, i: nat)
    requires AllValid(instrs) && i < |instrs| && !IsBranch(instrs[i].insKey)
    requires !KeyOf(instrs[i].insKey, "EXIT") && !KeyOf(instrs[i].insKey, "RET")
    ensures SuccessorsOf(instrs, i) == Success(if i + 1 < |instrs| then [i + 1] else [])
  {
    FlowOpcodes(instrs[i].insKey);
    NoBranch(instrs, i);
  }

  /** A kernel is straight-line when each instruction's only successor is the next one. */
  predicate StraightLine(succ: seq<seq<nat>>) {
    forall i :: 0 <= i < |succ| ==> succ[i] == if i + 1 < |succ| then [i + 1] else []
  }

  /** Without exits and branches a kernel resolves, to the straight line. */
  lemma NoTransfersIsStraightLine(instrs: seq<DecodedInstruction>)
    requires AllValid(instrs)
    requires forall i :: 0 <= i < |instrs| ==> FlowOf(Opcode(instrs[i].insKey)) == FallsThrough
    ensures Resolves(instrs) && StraightLine(CfgOf(instrs))
  {
    assert forall i :: 0 <= i < |instrs| ==> SuccessorsOf(instrs, i) == Success(FallThrough(instrs, i));
  }
}
