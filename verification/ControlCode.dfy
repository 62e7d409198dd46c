/**
 The packed control code of one instruction: a 6-bit wait mask, two 3-bit scoreboard
 fields, a yield bit and a 4-bit stall count.

 Words are natural numbers: a mask followed by a right shift is a division and a remainder
 by powers of two, and a left shift is a multiplication.
 */
module ControlCode {

  /** A 32-bit unsigned word. */
  type Word32 = x: nat | x < 0x1_0000_0000

  /** Number of physical scoreboard slots. */
  const SLOT_COUNT: nat := 6

  /** Scoreboard field value that means "no scoreboard". */
  const NO_SCOREBOARD: nat := 7

  /** Largest stall count the 4-bit field can hold. */
  const MAX_STALL: nat := 15

  function Pow2(k: nat): (p: nat)
    ensures p >= 1
  {
    if k == 0 then 1 else 2 * Pow2(k - 1)
  }

  /** `(mask >> k) & 1`. */
  predicate HasBit(mask: nat, k: nat) {
    if k == 0 then mask % 2 == 1 else HasBit(mask / 2, k - 1)
  }

  /** `mask | (1 << k)`. */
  function SetBit(mask: nat, k: nat): nat {
    if k == 0 then mask / 2 * 2 + 1 else SetBit(mask / 2, k - 1) * 2 + mask % 2
  }

  lemma {:induction false} SetBitSets(mask: nat, k: nat, j: nat)
    ensures HasBit(SetBit(mask, k), j) <==> j == k || HasBit(mask, j)
  {
    if k > 0 && j > 0 {
      SetBitSets(mask / 2, k - 1, j - 1);
      assert SetBit(mask, k) / 2 == SetBit(mask / 2, k - 1);
    }
  }

  lemma HalfFits(mask: nat, half: nat)
    requires mask < 2 * half
    ensures mask / 2 < half
  {
  }

  lemma {:induction false} SetBitFits(mask: nat, k: nat, n: nat)
    requires k < n && mask < Pow2(n)
    ensures SetBit(mask, k) < Pow2(n)
  {
    var half := Pow2(n - 1);
    assert Pow2(n) == 2 * half;
    HalfFits(mask, half);
    if k > 0 {
      SetBitFits(mask / 2, k - 1, n - 1);
    }
  }

  /** No bit of zero is set. */
  lemma {:induction false} ZeroHasNoBits(k: nat)
    ensures !HasBit(0, k)
  {
    if k > 0 { ZeroHasNoBits(k - 1); }
  }

  /** The fields of a control code, as its constructor splits them. */
  datatype CuControlCode = CuControlCode(barrier: nat, read: nat, write: nat, yieldFlag: nat, stall: nat)
  {
    predicate IsYield() { yieldFlag == 0 }

    function GetStallCount(): nat { stall }

    /** The read scoreboard, or -1 when unset. */
    function GetReadSB(): int { if read == NO_SCOREBOARD then -1 else read }

    /** The write scoreboard, or -1 when unset. */
    function GetWriteSB(): int { if write == NO_SCOREBOARD then -1 else write }

    /** Fields within their bit widths. */
    predicate Valid() {
      barrier < 64 && read < 8 && write < 8 && yieldFlag < 2 && stall <= MAX_STALL
    }

    /** Whether this instruction waits on a slot. */
    predicate WaitsOn(slot: nat) {
      slot < SLOT_COUNT && HasBit(barrier, slot)
    }
  }

  /** 0 or 1. */
  function Flag(b: bool): nat {
    if b then 1 else 0
  }

  /** The sum of the weights of the lowest bits that are set. */
  function BitSum(mask: nat, n: nat): nat {
    if n == 0 then 0 else Flag(mask % 2 == 1) + 2 * BitSum(mask / 2, n - 1)
  }

  lemma {:induction false} BitSumIsMask(mask: nat, n: nat)
    requires mask < Pow2(n)
    ensures BitSum(mask, n) == mask
  {
    if n > 0 {
      BitSumIsMask(mask / 2, n - 1);
    }
  }

  /** One more bit adds its weight. */
  lemma {:induction false} BitSumStep(mask: nat, n: nat)
    ensures BitSum(mask, n + 1) == BitSum(mask, n) + Pow2(n) * Flag(HasBit(mask, n))
  {
    if n > 0 {
      BitSumStep(mask / 2, n - 1);
    }
  }

  /** The mask is the sum of the weights of the slots that are waited on; there are six. */
  lemma MaskWeights(cc: CuControlCode)
    requires cc.Valid()
    ensures cc.barrier == Flag(cc.WaitsOn(0)) + 2 * Flag(cc.WaitsOn(1)) + 4 * Flag(cc.WaitsOn(2))
                          + 8 * Flag(cc.WaitsOn(3)) + 16 * Flag(cc.WaitsOn(4)) + 32 * Flag(cc.WaitsOn(5))
    ensures forall s: nat :: s >= 6 ==> !cc.WaitsOn(s)
  {
    assert Pow2(0) == 1 && Pow2(1) == 2 && Pow2(2) == 4 && Pow2(3) == 8 && Pow2(4) == 16 && Pow2(5) == 32;
    SixBits(cc.barrier, Pow2(6));
  }

  lemma SixBits(m: nat, bound: nat)
    requires m < bound == Pow2(6)
    ensures m == Pow2(0) * Flag(HasBit(m, 0)) + Pow2(1) * Flag(HasBit(m, 1)) + Pow2(2) * Flag(HasBit(m, 2))
                 + Pow2(3) * Flag(HasBit(m, 3)) + Pow2(4) * Flag(HasBit(m, 4)) + Pow2(5) * Flag(HasBit(m, 5))
  {
    BitSumIsMask(m, 6);
    BitSumStep(m, 0);
    BitSumStep(m, 1);
    BitSumStep(m, 2);
    BitSumStep(m, 3);
    BitSumStep(m, 4);
    BitSumStep(m, 5);
  }

  /** The scoreboards an instruction waits on, collected bit by bit. */
  method GetBarrierSet(cc: CuControlCode) returns (barriers: set<nat>)
    ensures forall s: nat :: s in barriers <==> cc.WaitsOn(s)
  {
    barriers := {};
    for i := 0 to SLOT_COUNT
      invariant forall s: nat :: s in barriers <==> s < i && cc.WaitsOn(s)
    {
      if HasBit(cc.barrier, i) {
        barriers := barriers + {i};
      }
    }
  }

  function SplitCode(code: Word32): (cc: CuControlCode)
    ensures cc.Valid()
  {
    CuControlCode(code / 2048 % 64, code / 256 % 8, code / 32 % 8, code / 16 % 2, code % 16)
  }

  function Truncate32(x: nat): Word32 { x % 0x1_0000_0000 }

  /** Merges the five fields with 32-bit shifts and additions. */
  function MergeCode(waitbar: Word32, readbar: Word32, writebar: Word32, yieldFlag: Word32, stall: Word32): Word32 {
    Truncate32(waitbar * 2048 + readbar * 256 + writebar * 32 + yieldFlag * 16 + stall)
  }

  lemma MultipleBounds(d: int, m: nat)
    ensures d >= 1 ==> d * m >= m
    ensures d <= -1 ==> d * m + m <= 0
  {
  }

  lemma DivMod(q: nat, r: nat, m: nat)
    requires r < m
    ensures (q * m + r) / m == q && (q * m + r) % m == r
  {
    var x := q * m + r;
    assert (q - x / m) * m == x % m - r;
    MultipleBounds(q - x / m, m);
  }

  /** Shifting in two steps. */
  lemma ShiftSteps(x: nat)
    ensures x / 32 == x / 16 / 2 && x / 256 == x / 32 / 8 && x / 2048 == x / 256 / 8
  {
  }

  /** Fields within their widths merge without a carry out of 32 bits. */
  lemma SmallTruncate(x: nat)
    requires x < 0x1_0000_0000
    ensures Truncate32(x) == x
  {
  }

  lemma MergedFields(w: nat, r: nat, b: nat, y: nat, s: nat)
    requires w < 64 && r < 8 && b < 8 && y < 2 && s < 16
    ensures MergeCode(w, r, b, y, s) == w * 2048 + r * 256 + b * 32 + y * 16 + s
  {
    SmallTruncate(w * 2048 + r * 256 + b * 32 + y * 16 + s);
  }

  lemma SplitFields(code: Word32, w: nat, r: nat, b: nat, y: nat, s: nat)
    requires code == w * 2048 + r * 256 + b * 32 + y * 16 + s
    requires w < 64 && r < 8 && b < 8 && y < 2 && s < 16
    ensures SplitCode(code) == CuControlCode(w, r, b, y, s)
  {
    FieldsOf(w, r, b, y, s);
  }

  /** Fields within their widths survive a merge followed by a split, and take 17 bits. */
  lemma SplitOfMerge(cc: CuControlCode)
    requires cc.Valid()
    ensures MergeCode(cc.barrier, cc.read, cc.write, cc.yieldFlag, cc.stall) < 0x2_0000
    ensures SplitCode(MergeCode(cc.barrier, cc.read, cc.write, cc.yieldFlag, cc.stall)) == cc
  {
    MergedFields(cc.barrier, cc.read, cc.write, cc.yieldFlag, cc.stall);
    SplitFields(MergeCode(cc.barrier, cc.read, cc.write, cc.yieldFlag, cc.stall),
                cc.barrier, cc.read, cc.write, cc.yieldFlag, cc.stall);
  }

  lemma FieldsOf(w: nat, r: nat, b: nat, y: nat, s: nat)
    requires w < 64 && r < 8 && b < 8 && y < 2 && s < 16
    ensures var c := w * 2048 + r * 256 + b * 32 + y * 16 + s;
            && c < 0x2_0000
            && c % 16 == s
            && c / 16 % 2 == y
            && c / 32 % 8 == b
            && c / 256 % 8 == r
            && c / 2048 % 64 == w
  {
    var c := w * 2048 + r * 256 + b * 32 + y * 16 + s;
    ShiftSteps(c);
    var c1 := w * 128 + r * 16 + b * 2 + y;
    assert c == c1 * 16 + s;
    DivMod(c1, s, 16);
    var c2 := w * 64 + r * 8 + b;
    assert c1 == c2 * 2 + y;
    DivMod(c2, y, 2);
    DivMod(w * 8 + r, b, 8);
    DivMod(w, r, 8);
  }

  /**
   Merging the split fields of a code keeps exactly its low 17 bits, in which every field has its
   place: the stall count lowest, then the yield bit, the write and the read scoreboard, and the mask.
   */
  lemma MergeOfSplit(code: Word32)
    ensures var cc := SplitCode(code);
            && MergeCode(cc.barrier, cc.read, cc.write, cc.yieldFlag, cc.stall) == code % 0x2_0000
            && code % 0x2_0000 == cc.stall + 16 * cc.yieldFlag + 32 * cc.write + 256 * cc.read + 2048 * cc.barrier
  {
    var cc := SplitCode(code);
    CodeWeights(code, cc.barrier, cc.read, cc.write, cc.yieldFlag, cc.stall);
    MergedFields(cc.barrier, cc.read, cc.write, cc.yieldFlag, cc.stall);
  }

  /** The low 17 bits of a code are its fields at their weights. */
  lemma CodeWeights(code: nat, w: nat, r: nat, b: nat, y: nat, s: nat)
    requires w == code / 2048 % 64 && r == code / 256 % 8 && b == code / 32 % 8 && y == code / 16 % 2 && s == code % 16
    ensures code % 0x2_0000 == w * 2048 + r * 256 + b * 32 + y * 16 + s
  {
    ShiftSteps(code);
    var top := code / 2048 / 64;
    var low := w * 2048 + r * 256 + b * 32 + y * 16 + s;
    assert code == top * 0x2_0000 + low;
    DivMod(top, low, 0x2_0000);
  }
}
