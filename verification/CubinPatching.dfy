/** Patching corrected codes into an image. */
module CubinPatching {
  import opened Wrappers
  import opened ControlCode
  import opened DecodedInstructions
  import opened ControlFlow
  import opened BarrierIntervals
  import opened Correction
  import opened Corrector
  import opened Bytes
  import opened InstructionPacking

  /** A text section of the image. */
  datatype Section = Section(offset: nat, size: nat)

  predicate InImage(bytes: seq<Byte>, sections: seq<Section>) {
    forall k :: 0 <= k < |sections| ==> sections[k].offset + sections[k].size <= |bytes|
  }

  predicate Disjoint(sections: seq<Section>) {
    forall i, j :: 0 <= i < j < |sections| ==>
      || sections[i].offset + sections[i].size <= sections[j].offset
      || sections[j].offset + sections[j].size <= sections[i].offset
  }

  /** The bytes of one section. */
  function Contents(bytes: seq<Byte>, s: Section): seq<Byte>
    requires s.offset + s.size <= |bytes|
  {
    bytes[s.offset..s.offset + s.size]
  }

  predicate Outside(sections: seq<Section>, pos: nat) {
    forall k :: 0 <= k < |sections| ==> !(sections[k].offset <= pos < sections[k].offset + sections[k].size)
  }

  datatype PatchError = NoKernels | BadSection(packing: PackingError) | Cfg(cfgError: CfgError)

  /** The words of a section, split into control codes and instruction codes. */
  ghost predicate IsSplit(contents: seq<Byte>, ctrl: seq<nat>, ins: seq<nat>) {
    var words := Words(contents, 16);
    && |contents| % 16 == 0 && |ctrl| == |ins| == |words|
    && forall i :: 0 <= i < |words| ==> ctrl[i] == ControlBits(words[i]) && ins[i] == WithoutControl(words[i])
  }

  /** A kernel holds the split contents of its section. */
  ghost predicate Holds(bytes: seq<Byte>, s: Section, kcc: KernelControlCodes)
    requires s.offset + s.size <= |bytes|
    reads kcc
  {
    && kcc.sectionOffset == s.offset && kcc.sectionSize == s.size
    && IsSplit(Contents(bytes, s), kcc.ctrlCodeList, kcc.insCodeList)
  }

  /** Splits the contents of every text section. */
  method LoadControlCodes(bytes: seq<Byte>, sections: seq<Section>)
    returns (r: Result<seq<KernelControlCodes>, PatchError>)
    requires InImage(bytes, sections)
    ensures r.Failure? <==> exists k :: 0 <= k < |sections| && sections[k].size % 16 != 0
    ensures r.Failure? ==> r.error == BadSection(BadLength)
    ensures r.Success? ==>
              && |r.value| == |sections|
              && (forall k :: 0 <= k < |sections| ==> fresh(r.value[k]) && Holds(bytes, sections[k], r.value[k]))
              && (forall i, j :: 0 <= i < j < |sections| ==> r.value[i] != r.value[j])
  {
    var kernels: seq<KernelControlCodes> := [];
    for k := 0 to |sections|
      invariant |kernels| == k
      invariant forall i :: 0 <= i < k ==> sections[i].size % 16 == 0
      invariant forall i :: 0 <= i < k ==> fresh(kernels[i]) && Holds(bytes, sections[i], kernels[i])
      invariant forall i, j :: 0 <= i < j < k ==> kernels[i] != kernels[j]
    {
      var s := sections[k];
      var split := SplitCtrlCode7x8x(Contents(bytes, s));
      if split.Failure? {
        return Failure(BadSection(split.error));
      }
      var kcc := new KernelControlCodes(s.offset, s.size, split.value.0, split.value.1);
      kernels := kernels + [kcc];
    }
    return Success(kernels);
  }

  /** `after` is `before` with new control codes, and nothing else, in its instruction words. */
  ghost predicate Recoded(before: seq<Byte>, after: seq<Byte>, codes: seq<nat>) {
    var was, now := Words(before, 16), Words(after, 16);
    && |after| == |before|
    && |was| == |now| == |codes|
    && forall i :: 0 <= i < |was| ==>
       WithoutControl(now[i]) == WithoutControl(was[i]) && ControlBits(now[i]) == codes[i]
  }

  /** The section that the merged codes make. */
  lemma MergedSection(contents: seq<Byte>, ins: seq<nat>, codes: seq<nat>)
    requires |contents| % 16 == 0 && |ins| == |codes| == |Words(contents, 16)|
    requires forall i :: 0 <= i < |ins| ==> ins[i] == WithoutControl(Words(contents, 16)[i]) && codes[i] < CC_RANGE
    ensures |Flatten(MergedWords7x8x(ins, codes), 16)| == |contents|
    ensures Recoded(contents, Flatten(MergedWords7x8x(ins, codes), 16), codes)
  {
    FlattenOfWords(contents, 16, |contents| / 16);
    WordsBound(contents, 16);
    forall i | 0 <= i < |ins|
      ensures IsInsCode7x8x(ins[i])
    {
      WithoutControlHasNone(Words(contents, 16)[i]);
      ControlBitsFit(Words(contents, 16)[i]);
    }
    SplitOfMerge7x8x(ins, codes);
  }

  /** Copies a section into the image. */
  method CopySection(outBytes: array<Byte>, offset: nat, merged: seq<Byte>)
    requires offset + |merged| <= outBytes.Length
    modifies outBytes
    ensures outBytes[offset..offset + |merged|] == merged
    ensures forall pos :: 0 <= pos < outBytes.Length && !(offset <= pos < offset + |merged|) ==>
            outBytes[pos] == old(outBytes[pos])
  {
    for j := 0 to |merged|
      invariant forall i :: 0 <= i < j ==> outBytes[offset + i] == merged[i]
      invariant forall pos :: 0 <= pos < outBytes.Length && !(offset <= pos < offset + j) ==>
                outBytes[pos] == old(outBytes[pos])
    {
      outBytes[offset + j] := merged[j];
    }
  }

  /** What became of the contents of one section. */
  ghost predicate KernelDone(was: seq<Byte>, now: seq<Byte>, decoded: seq<DecodedInstruction>,
                             status: CheckStatus, plan: Plan, codes: seq<nat>)
    requires AllValid(decoded)
  {
    && Recoded(was, now, codes)
    && IsPlan(decoded, plan)
    && status == (if EnoughSlots(plan) then Corrected(SlotAssignment.NumColors(plan.colors)) else Unrepairable)
    && (status.Corrected? ==>
          (forall i :: 0 <= i < |codes| ==> codes[i] < 0x1_0000_0000) && AreCorrectedCodes(decoded, plan, codes))
    && (status.Unrepairable? ==> now == was)
  }

  lemma CorrectedCodesFit(decoded: seq<DecodedInstruction>, plan: Plan, codes: seq<Word32>)
    requires AllValid(decoded) && IsPlan(decoded, plan) && AreCorrectedCodes(decoded, plan, codes)
    ensures forall i :: 0 <= i < |codes| ==> codes[i] < CC_RANGE
  {
    forall i | 0 <= i < |decoded|
      ensures codes[i] < CC_RANGE
    {
      SplitOfMerge(CorrectedFields(decoded, plan, i));
    }
  }

  /** Merging corrected codes gives the section of a corrected kernel. */
  lemma MergedKernel(contents: seq<Byte>, ctrl: seq<nat>, ins: seq<nat>, codes: seq<Word32>,
                     decoded: seq<DecodedInstruction>, status: CheckStatus, plan: Plan)
    requires AllValid(decoded) && IsSplit(contents, ctrl, ins) && |codes| == |decoded| == |ins| && IsPlan(decoded, plan)
    requires status == if EnoughSlots(plan) then Corrected(SlotAssignment.NumColors(plan.colors)) else Unrepairable
    requires if status.Corrected? then AreCorrectedCodes(decoded, plan, codes) else codes == ctrl
    ensures var merged := Flatten(MergedWords7x8x(ins, codes), 16);
            |merged| == |contents| && KernelDone(contents, merged, decoded, status, plan, codes)
  {
    if status.Corrected? {
      CorrectedCodesFit(decoded, plan, codes);
    } else {
      MergeOfSplit7x8x(contents, codes, ins);
    }
    MergedSection(contents, ins, codes);
  }

  /** Corrects one kernel and returns the bytes of its section. */
  method CorrectKernel(contents: seq<Byte>, kcc: KernelControlCodes, decoded: seq<DecodedInstruction>,
                       minSafe: MarginTable)
    returns (r: Result<(CheckStatus, seq<Byte>), PatchError>, ghost plan: Plan)
    requires IsSplit(contents, kcc.ctrlCodeList, kcc.insCodeList) && kcc.sectionSize == |contents|
    requires AllValid(decoded) && |decoded| == |kcc.ctrlCodeList|
    modifies kcc`ctrlCodeList
    ensures r.Failure? <==> !Resolves(decoded)
    ensures r.Failure? ==> r.error.Cfg? && IsFirstError(decoded, r.error.cfgError)
    ensures r.Success? ==> KernelDone(contents, r.value.1, decoded, r.value.0, plan, kcc.ctrlCodeList)
  {
    ghost var ctrl := kcc.ctrlCodeList;
    var status;
    status, plan := CorrectControlCodes(kcc, decoded, minSafe);
    if status.Failure? {
      return Failure(Cfg(status.error)), plan;
    }
    MergedKernel(contents, ctrl, kcc.insCodeList, kcc.ctrlCodeList, decoded, status.value, plan);
    var merged := MergeCtrlCodes7x8x(kcc.insCodeList, kcc.ctrlCodeList);
    if |merged.value| != kcc.sectionSize {
      assert false; // the changed-section-size exit
    }
    return Success((status.value, merged.value)), plan;
  }

  /** What became of one section. */
  ghost predicate SectionDone(before: seq<Byte>, after: seq<Byte>, s: Section, decoded: seq<DecodedInstruction>,
                              status: CheckStatus, plan: Plan, codes: seq<nat>)
    requires s.offset + s.size <= |before| == |after| && AllValid(decoded)
  {
    KernelDone(Contents(before, s), Contents(after, s), decoded, status, plan, codes)
  }

  datatype Report = Report(statuses: seq<CheckStatus>, image: Option<seq<Byte>>)

  /** The requirements on the decoder's output: one decoded kernel for each section, aligned with it. */
  predicate Aligned(sections: seq<Section>, decoded: seq<seq<DecodedInstruction>>) {
    && |decoded| == |sections|
    && forall k :: 0 <= k < |sections| ==> AllValid(decoded[k]) && |decoded[k]| == sections[k].size / 16
  }

  /** Writing one section leaves every disjoint section alone. */
  lemma OtherSectionKept(before: seq<Byte>, after: seq<Byte>, sections: seq<Section>, k: nat, j: nat)
    requires |after| == |before| && InImage(before, sections) && Disjoint(sections)
    requires k < |sections| && j < |sections| && j != k
    requires forall pos ::
               0 <= pos < |before| && !(sections[k].offset <= pos < sections[k].offset + sections[k].size) ==>
               after[pos] == before[pos]
    ensures Contents(after, sections[j]) == Contents(before, sections[j])
  {
  }

  /** The sections handled so far. */
  ghost predicate FirstDone(bytes: seq<Byte>, after: seq<Byte>, sections: seq<Section>,
                            decoded: seq<seq<DecodedInstruction>>,
                            statuses: seq<CheckStatus>, plans: seq<Plan>, codes: seq<seq<nat>>)
    requires |after| == |bytes| && InImage(bytes, sections) && Aligned(sections, decoded)
  {
    && |statuses| == |plans| == |codes| <= |sections|
    && (forall j :: 0 <= j < |statuses| ==>
          SectionDone(bytes, after, sections[j], decoded[j], statuses[j], plans[j], codes[j]))
    && (forall pos :: 0 <= pos < |bytes| && Outside(sections, pos) ==> after[pos] == bytes[pos])
  }

  lemma OneMoreDone(bytes: seq<Byte>, before: seq<Byte>, after: seq<Byte>, sections: seq<Section>,
                    decoded: seq<seq<DecodedInstruction>>,
                    statuses: seq<CheckStatus>, plans: seq<Plan>, codes: seq<seq<nat>>,
                    status: CheckStatus, plan: Plan, code: seq<nat>)
    requires |after| == |before| == |bytes| && InImage(bytes, sections) && Disjoint(sections) &&
             Aligned(sections, decoded)
    requires FirstDone(bytes, before, sections, decoded, statuses, plans, codes)
    requires |statuses| < |sections|
    requires var s := sections[|statuses|];
             && SectionDone(bytes, after, s, decoded[|statuses|], status, plan, code)
             && forall pos :: 0 <= pos < |bytes| && !(s.offset <= pos < s.offset + s.size) ==> after[pos] == before[pos]
    ensures FirstDone(bytes, after, sections, decoded, statuses + [status], plans + [plan], codes + [code])
  {
    var k := |statuses|;
    forall j | 0 <= j < k
      ensures SectionDone(bytes, after, sections[j], decoded[j], statuses[j], plans[j], codes[j])
    {
      OtherSectionKept(before, after, sections, k, j);
    }
  }

  /** Corrects one kernel and writes its section into the image. */
  method PatchKernel(bytes: seq<Byte>, sections: seq<Section>, k: nat, kcc: KernelControlCodes,
                     decoded: seq<DecodedInstruction>,
                     minSafe: MarginTable, outBytes: array<Byte>)
    returns (r: Result<CheckStatus, PatchError>, ghost plan: Plan)
    requires InImage(bytes, sections) && k < |sections| && outBytes.Length == |bytes|
    requires Holds(bytes, sections[k], kcc)
    requires AllValid(decoded) && |decoded| == sections[k].size / 16
    modifies kcc`ctrlCodeList, outBytes
    ensures r.Failure? <==> !Resolves(decoded)
    ensures r.Failure? ==> r.error.Cfg? && IsFirstError(decoded, r.error.cfgError)
    ensures r.Success? ==> SectionDone(bytes, outBytes[..], sections[k], decoded, r.value, plan, kcc.ctrlCodeList)
    ensures forall pos :: 0 <= pos < |bytes| && !(sections[k].offset <= pos < sections[k].offset + sections[k].size) ==>
              outBytes[..][pos] == old(outBytes[..])[pos]
  {
    var s := sections[k];
    FlattenOfWords(Contents(bytes, s), 16, s.size / 16);
    var one;
    one, plan := CorrectKernel(Contents(bytes, s), kcc, decoded, minSafe);
    if one.Failure? {
      return Failure(one.error), plan;
    }
    var (status, merged) := one.value;
    CopySection(outBytes, s.offset, merged);
    assert Contents(outBytes[..], s) == merged;
    return Success(status), plan;
  }

  /** Why an image is not corrected: no sections, or a bad length, or else the first kernel that does not resolve. */
  ghost predicate IsReported(sections: seq<Section>, decoded: seq<seq<DecodedInstruction>>, error: PatchError)
    requires Aligned(sections, decoded)
  {
    if sections == [] then error == NoKernels
    else if exists k :: 0 <= k < |sections| && sections[k].size % 16 != 0 then error == BadSection(BadLength)
    else
      error.Cfg? && exists k :: 0 <= k < |sections| && IsFirstError(decoded[k], error.cfgError)
                                && forall j :: 0 <= j < k ==> Resolves(decoded[j])
  }

  /**
   Corrects all kernels, patching each into a copy of the image. The image is written out only
   if every kernel could be repaired. Every byte outside the text sections stays as it was, and
   inside them every instruction word keeps everything but its 17 control bits.
   */
  method CorrectCubinControlCodes(bytes: seq<Byte>, sections: seq<Section>, decoded: seq<seq<DecodedInstruction>>,
                                  minSafe: MarginTable)
    returns (r: Result<Report, PatchError>, ghost after: seq<Byte>, ghost plans: seq<Plan>, ghost codes: seq<seq<nat>>)
    requires InImage(bytes, sections) && Disjoint(sections) && Aligned(sections, decoded)
    ensures r.Failure? <==>
            || sections == []
            || exists k :: 0 <= k < |sections| && (sections[k].size % 16 != 0 || !Resolves(decoded[k]))
    ensures r.Failure? ==> IsReported(sections, decoded, r.error)
    ensures |after| == |bytes|
    ensures r.Success? ==> |r.value.statuses| == |sections|
    ensures r.Success? ==> FirstDone(bytes, after, sections, decoded, r.value.statuses, plans, codes)
    ensures r.Success? ==> r.value.image == if Unrepairable in r.value.statuses then None else Some(after)
  {
    after, plans, codes := bytes, [], [];
    if sections == [] {
      return Failure(NoKernels), after, plans, codes;
    }
    var loaded := LoadControlCodes(bytes, sections);
    if loaded.Failure? {
      return Failure(loaded.error), after, plans, codes;
    }
    var kernels := loaded.value;
    var outBytes := new Byte[|bytes|](i requires 0 <= i < |bytes| => bytes[i]);
    assert outBytes[..] == bytes;
    var statuses: seq<CheckStatus> := [];
    for k := 0 to |sections|
      invariant |statuses| == k
      invariant after == outBytes[..] && |after| == |bytes|
      invariant forall j :: 0 <= j < k ==> Resolves(decoded[j])
      invariant FirstDone(bytes, after, sections, decoded, statuses, plans, codes)
      invariant forall j :: k <= j < |sections| ==> Holds(bytes, sections[j], kernels[j])
    {
      ghost var before := after;
      var status, plan := PatchKernel(bytes, sections, k, kernels[k], decoded[k], minSafe, outBytes);
      if status.Failure? {
        return Failure(status.error), after, plans, codes;
      }
      after := outBytes[..];
      OneMoreDone(bytes, before, after, sections, decoded, statuses, plans, codes,
                  status.value, plan, kernels[k].ctrlCodeList);
      statuses, plans, codes := statuses + [status.value], plans + [plan], codes + [kernels[k].ctrlCodeList];
    }
    var image := if Unrepairable in statuses then None else Some(outBytes[..]);
    return Success(Report(statuses, image)), after, plans, codes;
  }

  // ---------- Which bits can change ----------

  lemma Pow256Of13()
    ensures 2 * Pow256(13) == CC_WEIGHT && Pow256(3) == 0x100_0000
  {
    assert Pow256(4) == 0x1_0000_0000;
    assert Pow256(8) == 0x1_0000_0000 * Pow256(4);
    assert Pow256(12) == 0x1_0000_0000 * Pow256(8);
  }

  lemma ThreeBytes(y: nat)
    ensures ToBytes(y, 3) == [y % 256, y / 256 % 256, y / 256 / 256 % 256]
  {
    assert ToBytes(y / 256 / 256, 1) == [y / 256 / 256 % 256] + ToBytes(y / 256 / 256 / 256, 0);
    assert ToBytes(y / 256, 2) == [y / 256 % 256] + ToBytes(y / 256 / 256, 1);
  }

  /** The bytes of a number with `a` low bytes `x` and `b` high bytes `y`. */
  lemma SplitBytes(x: nat, y: nat, a: nat, b: nat)
    requires x < Pow256(a) && y < Pow256(b)
    ensures ToBytes(x + Pow256(a) * y, a + b) == ToBytes(x, a) + ToBytes(y, b)
  {
    var bs := ToBytes(x, a) + ToBytes(y, b);
    FromBytesConcat(ToBytes(x, a), ToBytes(y, b));
    FromToBytes(x, a);
    FromToBytes(y, b);
    ToFromBytes(bs);
  }

  /** A word as its part above the control bits, the control bits, the bit below them, and the 13 low bytes. */
  lemma WordParts(w: nat, p: nat) returns (hi: nat, c: nat, bit: nat, low: nat)
    requires 2 * p == CC_WEIGHT
    ensures c < CC_RANGE && bit < 2 && low < p
    ensures w == (hi * 0x4_0000 + c * 2 + bit) * p + low
    ensures WithoutControl(w) == (hi * 0x4_0000 + bit) * p + low
  {
    ControlBitsFit(w);
    hi, c := w / CC_WEIGHT / CC_RANGE, ControlBits(w);
    var lo := w % CC_WEIGHT;
    bit, low := if lo < p then 0 else 1, if lo < p then lo else lo - p;
    assert w == hi * (CC_RANGE * CC_WEIGHT) + c * CC_WEIGHT + bit * p + low;
  }

  /** Bytes 13 to 15 of a word, in terms of its parts. */
  lemma HighBytes(hi: nat, c: nat, bit: nat)
    requires hi < 64 && c < CC_RANGE && bit < 2
    ensures var t := ToBytes(hi * 0x4_0000 + c * 2 + bit, 3); t[0] % 2 == bit && t[2] / 4 == hi
  {
    var y := hi * 0x4_0000 + c * 2 + bit;
    ThreeBytes(y);
    DivMod(hi, c * 2 + bit, 0x4_0000);
    DivMod(hi * 0x2_0000 + c, bit, 2);
    TopByte(y, hi);
  }

  lemma TopByte(y: nat, hi: nat)
    requires y / 0x4_0000 == hi < 64
    ensures y % 256 % 2 == y % 2
    ensures y / 256 / 256 % 256 / 4 == hi
  {
    var t := y / 256 / 256;
    assert t == y / 0x1_0000 && t / 4 == hi;
  }

  lemma CancelMul(y: nat, q: nat, p: nat, low: nat)
    requires y * p + low < q * p
    ensures y < q
  {
    if q <= y {
      MulMono(q, y, p);
    }
  }

  lemma BytesOfParts(w: nat, split: nat, hi: nat, c: nat, bit: nat, low: nat)
    requires split == 13 && c < CC_RANGE && bit < 2 && low < Pow256(split)
    requires w == (hi * 0x4_0000 + c * 2 + bit) * Pow256(split) + low && w < Pow256(split + 3)
    ensures var b := ToBytes(w, split + 3);
            b[..13] == ToBytes(low, split) && b[13] % 2 == bit && b[15] / 4 == hi
  {
    var y, p := hi * 0x4_0000 + c * 2 + bit, Pow256(split);
    PowSum(split, 3);
    CancelMul(y, Pow256(3), p, low);
    Pow256Of13();
    HighBytes(hi, c, bit);
    SplitBytes(low, y, split, 3);
    var t := ToBytes(y, 3);
    assert ToBytes(w, split + 3) == ToBytes(low, split) + t;
  }

  lemma {:induction false} PowSum(a: nat, b: nat)
    ensures Pow256(a + b) == Pow256(b) * Pow256(a)
  {
    if a > 0 {
      PowSum(a - 1, b);
      assert Pow256(a + b) == 256 * Pow256(a - 1 + b);
      assert 256 * (Pow256(b) * Pow256(a - 1)) == Pow256(b) * (256 * Pow256(a - 1));
    }
  }

  lemma MulMono(x: nat, y: nat, m: nat)
    requires x <= y
    ensures x * m <= y * m
  {
  }

  lemma SameOutsideControl(was: nat, now: nat, split: nat)
    requires split == 13 && was < Pow256(split + 3) && now < Pow256(split + 3)
    requires WithoutControl(was) == WithoutControl(now)
    ensures var b, b' := ToBytes(was, split + 3), ToBytes(now, split + 3);
            && b[..13] == b'[..13]
            && b[13] % 2 == b'[13] % 2
            && b[15] / 4 == b'[15] / 4
  {
    var p := Pow256(split);
    Pow256Of13();
    var hi, c, bit, low := WordParts(was, p);
    var hi', c', bit', low' := WordParts(now, p);
    DivMod(hi * 0x4_0000 + bit, low, p);
    DivMod(hi' * 0x4_0000 + bit', low', p);
    assert hi == hi' && bit == bit' && low == low';
    BytesOfParts(was, split, hi, c, bit, low);
    BytesOfParts(now, split, hi', c', bit', low');
  }

  /**
   Two instruction words that differ only in their control bits differ only in bits 1-7 of
   byte 13, in byte 14, and in bits 0-1 of byte 15.
   */
  lemma OnlySeventeenBits(b: seq<Byte>, b': seq<Byte>)
    requires |b| == |b'| == 16
    requires WithoutControl(FromBytes(b)) == WithoutControl(FromBytes(b'))
    ensures b[..13] == b'[..13] && b[13] % 2 == b'[13] % 2 && b[15] / 4 == b'[15] / 4
  {
    FromBytesBound(b);
    FromBytesBound(b');
    ToFromBytes(b);
    ToFromBytes(b');
    SameOutsideControl(FromBytes(b), FromBytes(b'), |b| - 3);
  }

  /** In a patched section, every instruction keeps all its bits but the 17 control bits. */
  lemma PatchChangesOnlyControlBits(before: seq<Byte>, after: seq<Byte>, codes: seq<nat>, i: nat)
    requires Recoded(before, after, codes) && i < |codes|
    ensures i * 16 + 16 <= |before| == |after|
    ensures var b, b' := before[i * 16..i * 16 + 16], after[i * 16..i * 16 + 16];
            b[..13] == b'[..13] && b[13] % 2 == b'[13] % 2 && b[15] / 4 == b'[15] / 4
  {
    WordAt(before, 16, i);
    WordAt(after, 16, i);
    OnlySeventeenBits(before[i * 16..i * 16 + 16], after[i * 16..i * 16 + 16]);
  }
}
