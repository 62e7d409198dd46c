/** Decoded instructions. */
module DecodedInstructions {
  /**
   Instructions decoded for hazard analysis: operand values, curated operand roles, latency
   class and control code, and the register accesses they amount to.
   */

  import opened Wrappers
  import opened ControlCode

  datatype RegisterSpace = GPR | UGPR | PRED | UPRED

  datatype AccessMode = READ | WRITE | READ_WRITE

  datatype OperandKind =
    | GPR_OPERAND | UGPR_OPERAND | PRED_OPERAND | UPRED_OPERAND
    | BARRIER | SBREG | SBSET | SREG | INT_IMME | FLOAT_IMME
    | R_ADDR | UR_ADDR | IMME_ADDR | CBANK_IMME | UR_CBANK | UR_DESC

  datatype OperandRoleEntry = OperandRoleEntry(kind: OperandKind, mode: AccessMode)

  datatype BarrierType = READ_BARRIER | WRITE_BARRIER

  /** A fixed-latency class never carries a barrier kind; a variable one carries exactly one. */
  datatype LatencyClass = Fixed | Variable(barrier: BarrierType)

  datatype Register = Register(space: RegisterSpace, number: int)

  datatype DecodedInstruction = DecodedInstruction(
    address: nat,
    insKey: string,
    insVals: seq<int>,
    insModi: seq<string>,
    ctrlCode: CuControlCode,
    roles: seq<OperandRoleEntry>,
    latency: LatencyClass)
  {
    /** The curated roles line up with the operand values; value 0 is the guard predicate. */
    predicate Valid() {
      |insVals| >= 1 + |roles| && ctrlCode.Valid()
    }
  }

  predicate AllValid(instrs: seq<DecodedInstruction>) {
    forall i :: 0 <= i < |instrs| ==> instrs[i].Valid()
  }

  const GPR_ZERO_INDEX := 255
  const UGPR_ZERO_INDEX := 63
  const PRED_TRUE_INDEX := 7

  function RegisterSpaceOf(kind: OperandKind): Option<RegisterSpace> {
    match kind
    case GPR_OPERAND | R_ADDR => Some(GPR)
    case UGPR_OPERAND | UR_ADDR => Some(UGPR)
    case PRED_OPERAND => Some(PRED)
    case UPRED_OPERAND => Some(UPRED)
    case _ => None
  }

  predicate IsSentinelRegister(r: Register) {
    match r.space
    case GPR => r.number == GPR_ZERO_INDEX
    case UGPR => r.number == UGPR_ZERO_INDEX
    case PRED | UPRED => r.number == PRED_TRUE_INDEX
  }

  /** Conversion of a 64-bit value to a signed 32-bit one. */
  function ToInt32(x: int): int {
    (x + 0x8000_0000) % 0x1_0000_0000 - 0x8000_0000
  }

  /** The opcode: the instruction key up to its first underscore. */
  function Opcode(insKey: string): string {
    if insKey == "" || insKey[0] == '_' then "" else [insKey[0]] + Opcode(insKey[1..])
  }

  datatype GuardKind = AlwaysTrue | AlwaysFalse | Conditional

  function GuardKindOf(ins: DecodedInstruction): GuardKind
    requires |ins.insVals| >= 1
  {
    var negated := ins.insVals[0] / 8 % 2 != 0;
    if ins.insVals[0] % 8 != PRED_TRUE_INDEX then Conditional
    else if negated then AlwaysFalse
    else AlwaysTrue
  }

  /** The register named by the guard predicate: uniform opcodes use the uniform file. */
  function GuardRegister(ins: DecodedInstruction): Register
    requires |ins.insVals| >= 1
  {
    var opcode := Opcode(ins.insKey);
    Register(if opcode != "" && opcode[0] == 'U' then UPRED else PRED, ins.insVals[0] % 8)
  }

  /** The register named by operand `k`, if its kind lives in a register file at all. */
  function OperandRegister(ins: DecodedInstruction, k: nat): Option<Register>
    requires ins.Valid() && k < |ins.roles|
  {
    match RegisterSpaceOf(ins.roles[k].kind)
    case None => None
    case Some(space) => Some(Register(space, ToInt32(ins.insVals[1 + k])))
  }

  predicate ReadingMode(m: AccessMode) { m != WRITE }

  predicate WritingMode(m: AccessMode) { m != READ }

  /** Operand `k` is an occurrence of the real register `r`. */
  predicate OccursAt(ins: DecodedInstruction, k: nat, r: Register)
    requires ins.Valid() && k < |ins.roles|
  {
    OperandRegister(ins, k) == Some(r) && !IsSentinelRegister(r)
  }

  /** The instruction reads `r`: through its guard or through some operand occurrence. */
  ghost predicate ReadsAmong(ins: DecodedInstruction, n: nat, r: Register)
    requires ins.Valid() && n <= |ins.roles|
  {
    || (r == GuardRegister(ins) && !IsSentinelRegister(r))
    || exists k :: 0 <= k < n && OccursAt(ins, k, r) && ReadingMode(ins.roles[k].mode)
  }

  /** The instruction writes `r` through some operand occurrence. */
  ghost predicate WritesAmong(ins: DecodedInstruction, n: nat, r: Register)
    requires ins.Valid() && n <= |ins.roles|
  {
    exists k :: 0 <= k < n && OccursAt(ins, k, r) && WritingMode(ins.roles[k].mode)
  }

  ghost predicate Reads(ins: DecodedInstruction, r: Register)
    requires ins.Valid()
  {
    ReadsAmong(ins, |ins.roles|, r)
  }

  ghost predicate Writes(ins: DecodedInstruction, r: Register)
    requires ins.Valid()
  {
    WritesAmong(ins, |ins.roles|, r)
  }

  ghost predicate Accesses(ins: DecodedInstruction, r: Register)
    requires ins.Valid()
  {
    Reads(ins, r) || Writes(ins, r)
  }

  type AccessMap = map<Register, AccessMode>

  predicate MapReads(m: AccessMap, r: Register) { r in m && ReadingMode(m[r]) }

  predicate MapWrites(m: AccessMap, r: Register) { r in m && WritingMode(m[r]) }

  /** A 64-bit operand value of some kind names a register that is not constant: its low 32 bits are the number. */
  predicate Names(kind: OperandKind, value: int, r: Register) {
    && -0x8000_0000 <= r.number < 0x8000_0000 && (value - r.number) % 0x1_0000_0000 == 0
    && match r.space
       case GPR => (kind == GPR_OPERAND || kind == R_ADDR) && r.number != 255
       case UGPR => (kind == UGPR_OPERAND || kind == UR_ADDR) && r.number != 63
       case PRED => kind == PRED_OPERAND && r.number != 7
       case UPRED => kind == UPRED_OPERAND && r.number != 7
  }

  /** The instruction is guarded by `r`: the low three bits of the first value, in the predicate file of its opcode. */
  predicate GuardedBy(insKey: string, guard: int, r: Register) {
    && guard % 8 == r.number != 7
    && r.space == if insKey != "" && insKey[0] == 'U' then UPRED else PRED
  }

  lemma ToInt32Meaning(x: int, y: int)
    ensures ToInt32(x) == y <==> -0x8000_0000 <= y < 0x8000_0000 && (x - y) % 0x1_0000_0000 == 0
  {
  }

  /** Operand `k` is described by role `k` and by the value behind the guard and the operands before it. */
  lemma OccursMeaning(ins: DecodedInstruction, k: nat, r: Register)
    requires ins.Valid() && k < |ins.roles|
    ensures OccursAt(ins, k, r) <==> Names(ins.roles[k].kind, ins.insVals[1 + k], r)
  {
    ToInt32Meaning(ins.insVals[1 + k], r.number);
  }

  /** Some value of the instruction names `r` as something to read. */
  ghost predicate ValuesRead(ins: DecodedInstruction, r: Register)
    requires ins.Valid()
  {
    || GuardedBy(ins.insKey, ins.insVals[0], r)
    || exists k :: && 0 <= k < |ins.roles| && ins.roles[k].mode != WRITE
                   && Names(ins.roles[k].kind, ins.insVals[1 + k], r)
  }

  /** Some value of the instruction names `r` as something to write. */
  ghost predicate ValuesWrite(ins: DecodedInstruction, r: Register)
    requires ins.Valid()
  {
    exists k :: && 0 <= k < |ins.roles| && ins.roles[k].mode != READ
                && Names(ins.roles[k].kind, ins.insVals[1 + k], r)
  }

  /** What an instruction reads and writes is what its values name. */
  lemma AccessMeaning(ins: DecodedInstruction, r: Register)
    requires ins.Valid()
    ensures Reads(ins, r) <==> ValuesRead(ins, r)
    ensures Writes(ins, r) <==> ValuesWrite(ins, r)
  {
    forall k: nat | k < |ins.roles|
      ensures OccursAt(ins, k, r) <==> Names(ins.roles[k].kind, ins.insVals[1 + k], r)
    {
      OccursMeaning(ins, k, r);
    }
  }

  /**
   The register accesses of one instruction, one merged entry per register: the entry reads
   exactly when some occurrence reads, and writes exactly when some occurrence writes.
   */
  method RegisterAccessesOf(ins: DecodedInstruction) returns (merged: AccessMap)
    requires ins.Valid()
    ensures forall r :: MapReads(merged, r) <==> Reads(ins, r)
    ensures forall r :: MapWrites(merged, r) <==> Writes(ins, r)
    ensures forall r :: r in merged ==> !IsSentinelRegister(r)
    ensures forall r :: r in merged && merged[r] != WRITE <==> ValuesRead(ins, r)
    ensures forall r :: r in merged && merged[r] != READ <==> ValuesWrite(ins, r)
  {
    merged := map[];
    var guard := GuardRegister(ins);
    if !IsSentinelRegister(guard) {
      merged := merged[guard := READ];
    }
    for k := 0 to |ins.roles|
      invariant forall r :: MapReads(merged, r) <==> ReadsAmong(ins, k, r)
      invariant forall r :: MapWrites(merged, r) <==> WritesAmong(ins, k, r)
      invariant forall r :: r in merged ==> !IsSentinelRegister(r)
    {
      ghost var before := merged;
      var mode := ins.roles[k].mode;
      var operand := OperandRegister(ins, k);
      if operand.Some? && !IsSentinelRegister(operand.value) {
        var r := operand.value;
        if r !in merged {
          merged := merged[r := mode];
        } else if merged[r] != mode {
          merged := merged[r := READ_WRITE];
        }
      }
      forall r
        ensures MapReads(merged, r) <==> ReadsAmong(ins, k + 1, r)
        ensures MapWrites(merged, r) <==> WritesAmong(ins, k + 1, r)
      {
        assert ReadsAmong(ins, k + 1, r) <==>
               ReadsAmong(ins, k, r) || (OccursAt(ins, k, r) && ReadingMode(mode));
        assert WritesAmong(ins, k + 1, r) <==>
               WritesAmong(ins, k, r) || (OccursAt(ins, k, r) && WritingMode(mode));
        assert MapReads(before, r) <==> ReadsAmong(ins, k, r);
        assert MapWrites(before, r) <==> WritesAmong(ins, k, r);
      }
    }
    forall r
      ensures r in merged && merged[r] != WRITE <==> ValuesRead(ins, r)
      ensures r in merged && merged[r] != READ <==> ValuesWrite(ins, r)
    {
      AccessMeaning(ins, r);
    }
  }
}
