/** Control codes in instruction words. */
module InstructionPacking {
  /**
   Splitting machine code into control codes and instruction codes, and merging it back.

   On sm_7x/8x each instruction is one 128-bit word that holds its own 17 control bits. On
   sm_5x/6x a 64-bit control word carries three 21-bit fields, 17 control bits and 4 reuse bits
   each, for the three 64-bit instruction words that follow it.
   */

  import opened Wrappers
  import opened ControlCode
  import opened Bytes

  // ---------- Words and bytes ----------

  /** The little-endian words of a byte string, `unit` bytes each. */
  function Words(bytes: seq<Byte>, unit: nat): seq<nat>
    requires unit > 0
  {
    if |bytes| < unit then [] else [FromBytes(bytes[..unit])] + Words(bytes[unit..], unit)
  }

  function Flatten(words: seq<nat>, unit: nat): (bytes: seq<Byte>)
    ensures |bytes| == |words| * unit
  {
    if words == [] then [] else ToBytes(words[0], unit) + Flatten(words[1..], unit)
  }

  lemma {:induction false} FlattenOfWords(bytes: seq<Byte>, unit: nat, n: nat)
    requires unit > 0 && |bytes| == n * unit
    ensures |Words(bytes, unit)| == n
    ensures Flatten(Words(bytes, unit), unit) == bytes
    decreases n
  {
    if n > 0 {
      assert |bytes| == (n - 1) * unit + unit;
      FlattenOfWords(bytes[unit..], unit, n - 1);
      ToFromBytes(bytes[..unit]);
      assert bytes == bytes[..unit] + bytes[unit..];
    } else {
      assert bytes == [];
    }
  }

  lemma {:induction false} WordsOfFlatten(words: seq<nat>, unit: nat)
    requires unit > 0 && forall k :: 0 <= k < |words| ==> words[k] < Pow256(unit)
    ensures Words(Flatten(words, unit), unit) == words
  {
    if words != [] {
      WordsOfFlatten(words[1..], unit);
      FromToBytes(words[0], unit);
      var bytes := Flatten(words, unit);
      assert bytes[..unit] == ToBytes(words[0], unit) && bytes[unit..] == Flatten(words[1..], unit);
    }
  }

  /** Every word is found again as far as its bytes hold it. */
  lemma {:induction false} WordsKept(words: seq<nat>, unit: nat, i: nat)
    requires unit > 0 && i < |words|
    ensures |Words(Flatten(words, unit), unit)| == |words|
    ensures Words(Flatten(words, unit), unit)[i] == words[i] % Pow256(unit)
  {
    var bytes := Flatten(words, unit);
    assert bytes[..unit] == ToBytes(words[0], unit) && bytes[unit..] == Flatten(words[1..], unit);
    LowBytes(words[0], unit);
    if |words| > 1 {
      WordsKept(words[1..], unit, if i > 0 then i - 1 else 0);
    }
  }

  lemma {:induction false} WordAt(bytes: seq<Byte>, unit: nat, i: nat)
    requires unit > 0 && i < |Words(bytes, unit)|
    ensures i * unit + unit <= |bytes|
    ensures Words(bytes, unit)[i] == FromBytes(bytes[i * unit..i * unit + unit])
    decreases i
  {
    if i > 0 {
      var rest := bytes[unit..];
      WordAt(rest, unit, i - 1);
      var p := (i - 1) * unit;
      assert p + unit == i * unit;
      assert rest[p..p + unit] == bytes[p + unit..p + unit + unit];
    }
  }

  lemma ConcatAssociates<T>(a: seq<T>, b: seq<T>, c: seq<T>)
    ensures (a + b) + c == a + (b + c)
  {
  }

  lemma FlattenStep(a: seq<nat>, unit: nat)
    requires a != []
    ensures Flatten(a, unit) == ToBytes(a[0], unit) + Flatten(a[1..], unit)
  {
  }

  lemma {:induction false} FlattenConcat(a: seq<nat>, b: seq<nat>, unit: nat)
    ensures Flatten(a + b, unit) == Flatten(a, unit) + Flatten(b, unit)
  {
    if a == [] {
      assert a + b == b;
    } else {
      FlattenConcat(a[1..], b, unit);
      FlattenStep(a, unit);
      FlattenStep(a + b, unit);
      assert (a + b)[1..] == a[1..] + b;
      ConcatAssociates(ToBytes(a[0], unit), Flatten(a[1..], unit), Flatten(b, unit));
    }
  }

  lemma {:induction false} WordsConcat(a: seq<Byte>, b: seq<Byte>, unit: nat, n: nat)
    requires unit > 0 && |a| == n * unit
    ensures Words(a + b, unit) == Words(a, unit) + Words(b, unit)
    decreases n
  {
    if n == 0 {
      assert a == [] && a + b == b;
    } else {
      assert |a| == (n - 1) * unit + unit;
      WordsConcat(a[unit..], b, unit, n - 1);
      assert (a + b)[..unit] == a[..unit] && (a + b)[unit..] == a[unit..] + b;
    }
  }

  /** All complete words of a byte string. */
  method ReadWords(bytes: seq<Byte>, unit: nat) returns (words: seq<nat>)
    requires unit > 0
    ensures words == Words(bytes, unit)
  {
    words := [];
    var pos := 0;
    while pos + unit <= |bytes|
      invariant pos <= |bytes|
      invariant words + Words(bytes[pos..], unit) == Words(bytes, unit)
    {
      var w := ReadLittleEndian(bytes, pos, unit);
      assert bytes[pos..][..unit] == bytes[pos..pos + unit];
      assert bytes[pos..][unit..] == bytes[pos + unit..];
      assert words + ([w] + Words(bytes[pos + unit..], unit)) == (words + [w]) + Words(bytes[pos + unit..], unit);
      words := words + [w];
      pos := pos + unit;
    }
  }

  // ---------- sm_7x/8x ----------

  /** Weight of control bit 0: bit 105 of the instruction word. */
  const CC_WEIGHT: nat := 0x2_0000_0000_0000_0000_0000_0000_00

  /** Number of distinct control codes. */
  const CC_RANGE: nat := 0x2_0000

  function ControlBits(word: nat): (c: nat)
    ensures c < CC_RANGE
  {
    word / CC_WEIGHT % CC_RANGE
  }

  /** The word with its control bits cleared. */
  function WithoutControl(word: nat): (w: nat)
  {
    ControlBitsFit(word);
    word - ControlBits(word) * CC_WEIGHT
  }

  lemma ControlBitsFit(word: nat)
    ensures word ==
            word / CC_WEIGHT / CC_RANGE * (CC_RANGE * CC_WEIGHT) + ControlBits(word) * CC_WEIGHT + word % CC_WEIGHT
    ensures ControlBits(word) * CC_WEIGHT <= word
  {
    var q := word / CC_WEIGHT;
    assert word == q * CC_WEIGHT + word % CC_WEIGHT;
    assert q == q / CC_RANGE * CC_RANGE + q % CC_RANGE;
  }

  /** Putting a control code into a word with clear control bits can be undone. */
  lemma InsertControl(word: nat, ctrl: nat)
    requires ControlBits(word) == 0 && ctrl < CC_RANGE
    ensures ControlBits(ctrl * CC_WEIGHT + word) == ctrl
    ensures WithoutControl(ctrl * CC_WEIGHT + word) == word
  {
    ControlBitsFit(word);
    var hi, lo := word / CC_WEIGHT / CC_RANGE, word % CC_WEIGHT;
    var word' := ctrl * CC_WEIGHT + word;
    assert word' == (hi * CC_RANGE + ctrl) * CC_WEIGHT + lo;
    DivMod(hi * CC_RANGE + ctrl, lo, CC_WEIGHT);
    DivMod(hi, ctrl, CC_RANGE);
  }

  /** Clearing the control bits really clears them. */
  lemma WithoutControlHasNone(word: nat)
    ensures ControlBits(WithoutControl(word)) == 0
  {
    ControlBitsFit(word);
    var hi, lo := word / CC_WEIGHT / CC_RANGE, word % CC_WEIGHT;
    assert WithoutControl(word) == (hi * CC_RANGE) * CC_WEIGHT + lo;
    DivMod(hi * CC_RANGE, lo, CC_WEIGHT);
    DivMod(hi, 0, CC_RANGE);
  }

  datatype PackingError = BadLength | LengthMismatch

  /** The merged word of one sm_7x/8x instruction. */
  function MergedWord(ctrl: nat, ins: nat): nat { ctrl * CC_WEIGHT + ins }

  function MergedWords7x8x(ins: seq<nat>, ctrl: seq<nat>): seq<nat>
    requires |ins| == |ctrl|
  {
    seq(|ins|, i requires 0 <= i < |ins| => MergedWord(ctrl[i], ins[i]))
  }

  method SplitCtrlCode7x8x(bytes: seq<Byte>) returns (r: Result<(seq<nat>, seq<nat>), PackingError>)
    ensures r.Failure? <==> |bytes| % 16 != 0
    ensures r.Failure? ==> r.error == BadLength
    ensures r.Success? ==>
              var words := Words(bytes, 16);
              && |r.value.0| == |r.value.1| == |words|
              && forall i :: 0 <= i < |words| ==>
                   r.value.0[i] == ControlBits(words[i]) && r.value.1[i] == WithoutControl(words[i])
  {
    if |bytes| % 16 != 0 {
      return Failure(BadLength);
    }
    var words := ReadWords(bytes, 16);
    var ctrl: seq<nat>, ins: seq<nat> := [], [];
    for i := 0 to |words|
      invariant |ctrl| == |ins| == i
      invariant forall k :: 0 <= k < i ==> ctrl[k] == ControlBits(words[k]) && ins[k] == WithoutControl(words[k])
    {
      ctrl := ctrl + [ControlBits(words[i])];
      ins := ins + [WithoutControl(words[i])];
    }
    return Success((ctrl, ins));
  }

  /** Appends the merged words of the instructions, `unit` bytes each. */
  method AppendMerged(ins: seq<nat>, ctrl: seq<nat>, unit: nat) returns (out: seq<Byte>)
    requires |ins| == |ctrl|
    ensures out == Flatten(MergedWords7x8x(ins, ctrl), unit)
  {
    out := [];
    ghost var words := MergedWords7x8x(ins, ctrl);
    for i := 0 to |ins|
      invariant out == Flatten(words[..i], unit)
    {
      FlattenConcat(words[..i], [words[i]], unit);
      assert words[..i + 1] == words[..i] + [words[i]];
      assert Flatten([words[i]], unit) == ToBytes(words[i], unit);
      out := AppendLittleEndian(out, MergedWord(ctrl[i], ins[i]), unit);
    }
    assert words[..|ins|] == words;
  }

  method MergeCtrlCodes7x8x(ins: seq<nat>, ctrl: seq<nat>) returns (r: Result<seq<Byte>, PackingError>)
    ensures r.Failure? <==> |ins| != |ctrl|
    ensures r.Failure? ==> r.error == LengthMismatch
    ensures r.Success? ==> r.value == Flatten(MergedWords7x8x(ins, ctrl), 16)
  {
    if |ctrl| != |ins| {
      return Failure(LengthMismatch);
    }
    var out := AppendMerged(ins, ctrl, 16);
    return Success(out);
  }

  /** Merging what was split gives back the same bytes. */
  lemma MergeOfSplit7x8x(bytes: seq<Byte>, ctrl: seq<nat>, ins: seq<nat>)
    requires |bytes| % 16 == 0 && |ctrl| == |ins| == |Words(bytes, 16)|
    requires forall i :: 0 <= i < |ctrl| ==>
               ctrl[i] == ControlBits(Words(bytes, 16)[i]) && ins[i] == WithoutControl(Words(bytes, 16)[i])
    ensures Flatten(MergedWords7x8x(ins, ctrl), 16) == bytes
  {
    var words := Words(bytes, 16);
    assert MergedWords7x8x(ins, ctrl) == words;
    FlattenOfWords(bytes, 16, |bytes| / 16);
  }

  /**
   Whatever the instructions and control codes: the word of instruction `i` is its code with the control code at
   bit 105, as far as 128 bits hold it.
   */
  lemma {:induction false} MergedWordAt7x8x(ins: seq<nat>, ctrl: seq<nat>, i: nat)
    requires |ins| == |ctrl| && i < |ins|
    ensures |Words(Flatten(MergedWords7x8x(ins, ctrl), 16), 16)| == |ins|
    ensures Words(Flatten(MergedWords7x8x(ins, ctrl), 16), 16)[i] ==
            (ctrl[i] * 0x200_0000_0000_0000_0000_0000_0000 + ins[i]) % Pow256(16)
  {
    MergedWordIn(ins, ctrl, 16, i);
  }

  lemma {:induction false} MergedWordIn(ins: seq<nat>, ctrl: seq<nat>, unit: nat, i: nat)
    requires |ins| == |ctrl| && i < |ins| && unit > 0
    ensures |Words(Flatten(MergedWords7x8x(ins, ctrl), unit), unit)| == |ins|
    ensures Words(Flatten(MergedWords7x8x(ins, ctrl), unit), unit)[i] ==
            (ctrl[i] * 0x200_0000_0000_0000_0000_0000_0000 + ins[i]) % Pow256(unit)
  {
    WordsKept(MergedWords7x8x(ins, ctrl), unit, i);
  }

  /** An sm_7x/8x instruction code: a 128-bit word whose control bits are clear. */
  predicate IsInsCode7x8x(ins: nat) {
    ins < Pow256(16) && ControlBits(ins) == 0
  }

  lemma MergedWordFits(ctrl: nat, ins: nat)
    requires ctrl < CC_RANGE && IsInsCode7x8x(ins)
    ensures MergedWord(ctrl, ins) < Pow256(16)
  {
    ControlBitsFit(ins);
    var hi := ins / CC_WEIGHT / CC_RANGE;
    assert Pow256(16) == 64 * (CC_RANGE * CC_WEIGHT) by {
      assert Pow256(4) == 0x1_0000_0000;
      assert Pow256(8) == 0x1_0000_0000 * Pow256(4);
      assert Pow256(12) == 0x1_0000_0000 * Pow256(8);
      assert Pow256(16) == 0x1_0000_0000 * Pow256(12);
    }
    assert hi < 64;
  }

  lemma MergedWordSplits(ctrl: nat, ins: nat)
    requires ctrl < CC_RANGE && IsInsCode7x8x(ins)
    ensures MergedWord(ctrl, ins) < Pow256(16)
    ensures ControlBits(MergedWord(ctrl, ins)) == ctrl && WithoutControl(MergedWord(ctrl, ins)) == ins
  {
    MergedWordFits(ctrl, ins);
    InsertControl(ins, ctrl);
  }

  /** Splitting what was merged gives back both lists. */
  lemma SplitOfMerge7x8x(ins: seq<nat>, ctrl: seq<nat>)
    requires |ins| == |ctrl|
    requires forall i :: 0 <= i < |ins| ==> IsInsCode7x8x(ins[i]) && ctrl[i] < CC_RANGE
    ensures var bytes := Flatten(MergedWords7x8x(ins, ctrl), 16);
            && |Words(bytes, 16)| == |ins|
            && forall i :: 0 <= i < |ins| ==>
                 ControlBits(Words(bytes, 16)[i]) == ctrl[i] && WithoutControl(Words(bytes, 16)[i]) == ins[i]
  {
    var words := MergedWords7x8x(ins, ctrl);
    forall i | 0 <= i < |ins|
      ensures words[i] < Pow256(16) && ControlBits(words[i]) == ctrl[i] && WithoutControl(words[i]) == ins[i]
    {
      MergedWordSplits(ctrl[i], ins[i]);
    }
    WordsOfFlatten(words, 16);
  }

  // ---------- sm_5x/6x ----------

  const FIELD: nat := 0x20_0000
  const WORD64: nat := 0x1_0000_0000_0000_0000

  /** The control code used for padding, and the NOP instruction word. */
  const PAD_CTRL: nat := 0x7e0
  const PAD_INS: nat := 0x50b0_0000_0007_0f00

  /** The `k`-th 21-bit field of a control word. */
  function ControlField(word: nat, k: nat): (f: nat)
    requires k < 3
    ensures f < FIELD
  {
    if k == 0 then word % FIELD else if k == 1 then word / FIELD % FIELD else word / FIELD / FIELD % FIELD
  }

  /** The weight of the lowest bit of the `k`-th field: bits 0, 21 and 42. */
  function FieldWeight(k: nat): (w: nat)
    ensures w > 0
  {
    if k == 0 then 1 else if k == 1 then 0x20_0000 else 0x400_0000_0000
  }

  /** The 17 control bits of the `k`-th field. */
  function ControlAt(word: nat, k: nat): nat {
    word / FieldWeight(k) % 0x2_0000
  }

  /** The four reuse bits of the `k`-th field. */
  function ReuseAt(word: nat, k: nat): nat {
    word / FieldWeight(k) / 0x2_0000 % 16
  }

  /** Weight of the lowest reuse bit in an instruction code: bit 81. */
  const REUSE_WEIGHT: nat := 0x2_0000_0000_0000_0000_0000

  lemma TwoFields(x: nat)
    ensures x / FIELD / FIELD == x / 0x400_0000_0000
  {
    var q := x / FIELD;
    var p := q / FIELD;
    assert x == q * FIELD + x % FIELD && q == p * FIELD + q % FIELD;
    DivMod(p, q % FIELD * FIELD + x % FIELD, 0x400_0000_0000);
  }

  lemma ModMod(f: nat)
    ensures f % FIELD % CC_RANGE == f % 0x2_0000 && f % FIELD / CC_RANGE == f / 0x2_0000 % 16
  {
    var q, r := f / 0x2_0000, f % 0x2_0000;
    var hi, lo := q / 16, q % 16;
    assert f == hi * FIELD + (lo * CC_RANGE + r);
    DivMod(hi, lo * CC_RANGE + r, FIELD);
    DivMod(lo, r, CC_RANGE);
  }

  /** The fields of a control word, 21 bits each from the lowest on. */
  lemma FieldMeaning(word: nat)
    ensures ControlField(word, 0) == word % 0x20_0000
    ensures ControlField(word, 1) == word / 0x20_0000 % 0x20_0000
    ensures ControlField(word, 2) == word / 0x400_0000_0000 % 0x20_0000
  {
    TwoFields(word);
  }

  /** The control code and the instruction code that a control field and an instruction word make. */
  function SplitField(field: nat, word: nat): (nat, nat) {
    (field % CC_RANGE, word + field / CC_RANGE * CC_RANGE * WORD64)
  }

  /** The control field and the instruction word of one instruction. */
  function MergeField(ctrl: nat, ins: nat): (nat, nat) {
    (ctrl + ins / WORD64, ins % WORD64)
  }

  /** A 64-bit instruction word with only reuse bits above bit 64. */
  predicate IsInsCode5x6x(ins: nat) {
    ins / WORD64 < FIELD && ins / WORD64 % CC_RANGE == 0
  }

  function PackFields(f0: nat, f1: nat, f2: nat): nat {
    f0 + f1 * FIELD + f2 * (FIELD * FIELD)
  }

  lemma FieldsOfPack(f0: nat, f1: nat, f2: nat)
    requires f0 < FIELD && f1 < FIELD && f2 < FIELD
    ensures var w := PackFields(f0, f1, f2);
            w < WORD64 / 2 && ControlField(w, 0) == f0 && ControlField(w, 1) == f1 && ControlField(w, 2) == f2
  {
    var w := PackFields(f0, f1, f2);
    assert w == (f1 + f2 * FIELD) * FIELD + f0;
    DivMod(f1 + f2 * FIELD, f0, FIELD);
    DivMod(f2, f1, FIELD);
  }

  /** The three fields of a word say everything about it but bit 63. */
  lemma PackOfFields(word: nat)
    requires word < WORD64
    ensures PackFields(ControlField(word, 0), ControlField(word, 1), ControlField(word, 2)) == word % (WORD64 / 2)
  {
    var q := word / FIELD;
    var p := q / FIELD;
    assert word == q * FIELD + word % FIELD && q == p * FIELD + q % FIELD && p == p / FIELD * FIELD + p % FIELD;
    FieldsOfPack(ControlField(word, 0), ControlField(word, 1), ControlField(word, 2));
    assert word ==
           p / FIELD * (WORD64 / 2) + PackFields(ControlField(word, 0), ControlField(word, 1), ControlField(word, 2));
  }

  lemma MergeOfSplitField(field: nat, word: nat)
    requires field < FIELD && word < WORD64
    ensures var (ctrl, ins) := SplitField(field, word); MergeField(ctrl, ins) == (field, word) && IsInsCode5x6x(ins)
  {
    var reuse := field / CC_RANGE * CC_RANGE;
    DivMod(reuse, word, WORD64);
    DivMod(field / CC_RANGE, 0, CC_RANGE);
  }

  lemma SplitOfMergeField(ctrl: nat, ins: nat)
    requires ctrl < CC_RANGE && IsInsCode5x6x(ins)
    ensures var (field, word) := MergeField(ctrl, ins);
            field < FIELD && word < WORD64 && SplitField(field, word) == (ctrl, ins)
  {
    var high := ins / WORD64;
    var reuse := high / CC_RANGE;
    assert high == reuse * CC_RANGE;
    DivMod(reuse, ctrl, CC_RANGE);
  }

  /** Splitting one control word and its three instruction words. */
  function SplitGroup(words: seq<nat>): (r: (seq<nat>, seq<nat>))
    requires |words| >= 4
    ensures |r.0| == |r.1| == 3
  {
    var g0 := SplitField(ControlField(words[0], 0), words[1]);
    var g1 := SplitField(ControlField(words[0], 1), words[2]);
    var g2 := SplitField(ControlField(words[0], 2), words[3]);
    ([g0.0, g1.0, g2.0], [g0.1, g1.1, g2.1])
  }

  /** Splitting groups of one control word and three instruction words. */
  function SplitWords5x6x(words: seq<nat>): (r: (seq<nat>, seq<nat>))
    ensures |r.0| == |r.1| == |words| / 4 * 3
  {
    if |words| < 4 then ([], [])
    else
      var g := SplitGroup(words);
      var rest := SplitWords5x6x(words[4..]);
      (g.0 + rest.0, g.1 + rest.1)
  }

  /** The group of words for three instructions. */
  function Remix(i0: nat, i1: nat, i2: nat, c0: nat, c1: nat, c2: nat): (g: seq<nat>)
    ensures |g| == 4
  {
    var (m0, m1, m2) := (MergeField(c0, i0), MergeField(c1, i1), MergeField(c2, i2));
    [PackFields(m0.0, m1.0, m2.0), m0.1, m1.1, m2.1]
  }

  /** The codes with NOPs added up to a multiple of three. */
  function PadIns(ins: seq<nat>): seq<nat> {
    ins + if |ins| % 3 == 0 then [] else if |ins| % 3 == 1 then [PAD_INS, PAD_INS] else [PAD_INS]
  }

  function PadCtrl(ctrl: seq<nat>): seq<nat> {
    ctrl + if |ctrl| % 3 == 0 then [] else if |ctrl| % 3 == 1 then [PAD_CTRL, PAD_CTRL] else [PAD_CTRL]
  }

  /** The word groups of whole triples of instructions. */
  function MergeTriples(ins: seq<nat>, ctrl: seq<nat>): (words: seq<nat>)
    requires |ins| == |ctrl|
    ensures |words| == |ins| / 3 * 4
  {
    if |ins| < 3 then []
    else Remix(ins[0], ins[1], ins[2], ctrl[0], ctrl[1], ctrl[2]) + MergeTriples(ins[3..], ctrl[3..])
  }

  /** The groups before word `i` are split; `left` is the rest. (Named, so that it need not be unfolded.) */
  ghost predicate SplitSoFar(words: seq<nat>, i: nat, ctrl: seq<nat>, ins: seq<nat>)
    requires i <= |words|
  {
    exists left :: IsRest(words, i, ctrl, ins, left)
  }

  ghost predicate IsRest(words: seq<nat>, i: nat, ctrl: seq<nat>, ins: seq<nat>, left: seq<nat>)
    requires i <= |words|
  {
    && left == words[i..]
    && ctrl + SplitWords5x6x(left).0 == SplitWords5x6x(words).0
    && ins + SplitWords5x6x(left).1 == SplitWords5x6x(words).1
  }

  lemma SplitStart(words: seq<nat>)
    ensures SplitSoFar(words, 0, [], [])
  {
    assert IsRest(words, 0, [], [], words);
  }

  lemma SplitStep(words: seq<nat>, i: nat, ctrl: seq<nat>, ins: seq<nat>, group: seq<nat>)
    requires i + 4 <= |words| && SplitSoFar(words, i, ctrl, ins) && group == words[i..i + 4]
    ensures SplitSoFar(words, i + 4, ctrl + SplitGroup(group).0, ins + SplitGroup(group).1)
  {
    var left :| IsRest(words, i, ctrl, ins, left);
    SplitGroupOfPrefix(left);
    assert group == left[..4];
    var rest := SplitWords5x6x(left[4..]);
    ConcatAssociates(ctrl, SplitGroup(group).0, rest.0);
    ConcatAssociates(ins, SplitGroup(group).1, rest.1);
    assert IsRest(words, i + 4, ctrl + SplitGroup(group).0, ins + SplitGroup(group).1, left[4..]);
  }

  lemma SplitDone(words: seq<nat>, ctrl: seq<nat>, ins: seq<nat>)
    requires SplitSoFar(words, |words|, ctrl, ins)
    ensures SplitWords5x6x(words) == (ctrl, ins)
  {
    var left :| IsRest(words, |words|, ctrl, ins, left);
    assert left == [] && ctrl + [] == ctrl && ins + [] == ins;
  }

  /** Splits groups of four words. */
  method SplitIntList5x6x(words: seq<nat>) returns (r: Result<(seq<nat>, seq<nat>), PackingError>)
    ensures r.Failure? <==> |words| % 4 != 0
    ensures r.Failure? ==> r.error == BadLength
    ensures r.Success? ==> r.value == SplitWords5x6x(words)
    ensures r.Success? ==> |r.value.0| == |r.value.1| == |words| / 4 * 3
    ensures r.Success? ==> forall i: nat :: i < |words| / 4 * 3 ==> SplitsAt(words, r.value.0, r.value.1, i)
  {
    if |words| % 4 != 0 {
      return Failure(BadLength);
    }
    var ctrl: seq<nat>, ins: seq<nat> := [], [];
    var i: nat := 0;
    ghost var n, q: nat := |words| / 4, 0;
    SplitStart(words);
    while i < |words|
      invariant i == 4 * q <= |words| == 4 * n && SplitSoFar(words, i, ctrl, ins)
    {
      var group := words[i..i + 4];
      SplitStep(words, i, ctrl, ins, group);
      var (ctrl3, ins3) := SplitGroup(group);
      ctrl := ctrl + ctrl3;
      ins := ins + ins3;
      i, q := i + 4, q + 1;
    }
    SplitDone(words, ctrl, ins);
    forall k: nat | k < |words| / 4 * 3
      ensures SplitsAt(words, ctrl, ins, k)
    {
      SplitMeaning(words, k);
    }
    return Success((ctrl, ins));
  }

  /** Splits a byte stream of groups. */
  method SplitCtrlCode5x6x(bytes: seq<Byte>) returns (r: Result<(seq<nat>, seq<nat>), PackingError>)
    ensures r.Failure? <==> |bytes| % 32 != 0
    ensures r.Failure? ==> r.error == BadLength
    ensures r.Success? ==> r.value == SplitWords5x6x(Words(bytes, 8))
  {
    if |bytes| % 32 != 0 {
      return Failure(BadLength);
    }
    var words := ReadWords(bytes, 8);
    FlattenOfWords(bytes, 8, |bytes| / 8);
    r := SplitIntList5x6x(words);
  }

  lemma MergeTriplesStep(ins: seq<nat>, ctrl: seq<nat>)
    requires |ins| == |ctrl| >= 3
    ensures MergeTriples(ins, ctrl)
            == Remix(ins[0], ins[1], ins[2], ctrl[0], ctrl[1], ctrl[2]) + MergeTriples(ins[3..], ctrl[3..])
  {
  }

  lemma {:induction false} MergeTriplesConcat(i1: seq<nat>, c1: seq<nat>, i2: seq<nat>, c2: seq<nat>, n: nat)
    requires |i1| == |c1| == 3 * n && |i2| == |c2|
    ensures MergeTriples(i1 + i2, c1 + c2) == MergeTriples(i1, c1) + MergeTriples(i2, c2)
    decreases n
  {
    if n == 0 {
      assert i1 + i2 == i2 && c1 + c2 == c2;
    } else {
      MergeTriplesConcat(i1[3..], c1[3..], i2, c2, n - 1);
      MergeTriplesStep(i1, c1);
      MergeTriplesStep(i1 + i2, c1 + c2);
      assert (i1 + i2)[3..] == i1[3..] + i2 && (c1 + c2)[3..] == c1[3..] + c2;
      ConcatAssociates(Remix(i1[0], i1[1], i1[2], c1[0], c1[1], c1[2]),
                       MergeTriples(i1[3..], c1[3..]), MergeTriples(i2, c2));
    }
  }

  /** One more triple makes one more group. */
  lemma MergeTriplesSnoc(ins: seq<nat>, ctrl: seq<nat>, i: nat)
    requires |ins| == |ctrl| && 3 * i + 3 <= |ins|
    ensures MergeTriples(ins[..3 * i + 3], ctrl[..3 * i + 3])
            == MergeTriples(ins[..3 * i], ctrl[..3 * i])
               + Remix(ins[3 * i], ins[3 * i + 1], ins[3 * i + 2], ctrl[3 * i], ctrl[3 * i + 1], ctrl[3 * i + 2])
  {
    var tIns, tCtrl := ins[3 * i..3 * i + 3], ctrl[3 * i..3 * i + 3];
    MergeTriplesConcat(ins[..3 * i], ctrl[..3 * i], tIns, tCtrl, i);
    assert ins[..3 * i + 3] == ins[..3 * i] + tIns && ctrl[..3 * i + 3] == ctrl[..3 * i] + tCtrl;
    assert tIns[3..] == [] && tCtrl[3..] == [];
  }

  /** The last one or two instructions, filled up with NOPs. */
  method PadTail(ins: seq<nat>, ctrl: seq<nat>) returns (tIns: seq<nat>, tCtrl: seq<nat>)
    requires |ins| == |ctrl| && 1 <= |ins| <= 2
    ensures tIns == PadIns(ins) && tCtrl == PadCtrl(ctrl)
  {
    tIns, tCtrl := ins, ctrl;
    var npad := 3 - |ins|;
    for k := 0 to npad
      invariant tIns == ins + seq(k, _ => PAD_INS)
      invariant tCtrl == ctrl + seq(k, _ => PAD_CTRL)
    {
      tIns, tCtrl := tIns + [PAD_INS], tCtrl + [PAD_CTRL];
    }
  }

  /** Padding a list is padding what is left over after the whole triples. */
  lemma PadLeftover(ins: seq<nat>, ctrl: seq<nat>)
    requires |ins| == |ctrl|
    ensures var n := |ins| / 3 * 3;
            && PadIns(ins) == ins[..n] + PadIns(ins[n..])
            && PadCtrl(ctrl) == ctrl[..n] + PadCtrl(ctrl[n..])
  {
    var n := |ins| / 3 * 3;
    assert (|ins| - n) % 3 == |ins| % 3;
    assert ins == ins[..n] + ins[n..] && ctrl == ctrl[..n] + ctrl[n..];
  }

  /** Appends the words of one group, `unit` bytes each. */
  method AppendGroup(out: seq<Byte>, group: seq<nat>, unit: nat) returns (out': seq<Byte>)
    ensures out' == out + Flatten(group, unit)
  {
    out' := out;
    for k := 0 to |group|
      invariant out' == out + Flatten(group[..k], unit)
    {
      FlattenConcat(group[..k], [group[k]], unit);
      assert group[..k + 1] == group[..k] + [group[k]];
      assert Flatten([group[k]], unit) == ToBytes(group[k], unit);
      out' := AppendLittleEndian(out', group[k], unit);
    }
    assert group[..|group|] == group;
  }

  /** The intact triples, then one padded group when instructions are left over; `unit` bytes a word. */
  method AppendTriples(ins: seq<nat>, ctrl: seq<nat>, unit: nat) returns (out: seq<Byte>)
    requires |ins| == |ctrl|
    ensures out == Flatten(MergeTriples(PadIns(ins), PadCtrl(ctrl)), unit)
  {
    out := [];
    var intact := |ins| / 3;
    for i := 0 to intact
      invariant out == Flatten(MergeTriples(ins[..3 * i], ctrl[..3 * i]), unit)
    {
      var group := Remix(ins[3 * i], ins[3 * i + 1], ins[3 * i + 2], ctrl[3 * i], ctrl[3 * i + 1], ctrl[3 * i + 2]);
      MergeTriplesSnoc(ins, ctrl, i);
      FlattenConcat(MergeTriples(ins[..3 * i], ctrl[..3 * i]), group, unit);
      out := AppendGroup(out, group, unit);
    }
    PadLeftover(ins, ctrl);
    if intact * 3 != |ins| {
      var tIns, tCtrl := PadTail(ins[3 * intact..], ctrl[3 * intact..]);
      var group := Remix(tIns[0], tIns[1], tIns[2], tCtrl[0], tCtrl[1], tCtrl[2]);
      MergeTriplesConcat(ins[..3 * intact], ctrl[..3 * intact], tIns, tCtrl, intact);
      assert tIns[3..] == [] && tCtrl[3..] == [];
      assert MergeTriples(tIns, tCtrl) == group;
      assert PadIns(ins) == ins[..3 * intact] + tIns && PadCtrl(ctrl) == ctrl[..3 * intact] + tCtrl;
      FlattenConcat(MergeTriples(ins[..3 * intact], ctrl[..3 * intact]), group, unit);
      out := AppendGroup(out, group, unit);
    } else {
      assert ins[3 * intact..] == [] && ctrl[3 * intact..] == [];
      assert PadIns(ins) == ins[..3 * intact] && PadCtrl(ctrl) == ctrl[..3 * intact];
    }
  }

  method MergeCtrlCodes5x6x(ins: seq<nat>, ctrl: seq<nat>) returns (r: Result<seq<Byte>, PackingError>)
    ensures r.Failure? <==> |ins| != |ctrl|
    ensures r.Failure? ==> r.error == LengthMismatch
    ensures r.Success? ==> r.value == MergedBytes5x6x(ins, ctrl)
  {
    if |ctrl| != |ins| {
      return Failure(LengthMismatch);
    }
    var out := AppendTriples(ins, ctrl, 8);
    return Success(out);
  }

  lemma MergeOfSplitGroup(words: seq<nat>)
    requires |words| == 4 && forall k :: 0 <= k < 4 ==> words[k] < WORD64
    ensures var (ctrl, ins) := SplitWords5x6x(words);
            Remix(ins[0], ins[1], ins[2], ctrl[0], ctrl[1], ctrl[2])
            == [words[0] % (WORD64 / 2), words[1], words[2], words[3]]
  {
    PackOfFields(words[0]);
    MergeOfSplitField(ControlField(words[0], 0), words[1]);
    MergeOfSplitField(ControlField(words[0], 1), words[2]);
    MergeOfSplitField(ControlField(words[0], 2), words[3]);
  }

  /** The codes made of the `k`-th field of a control word and of an instruction word. */
  lemma SplitFieldMeaning(control: nat, k: nat, word: nat)
    requires k < 3
    ensures SplitField(ControlField(control, k), word) ==
            (ControlAt(control, k), word + ReuseAt(control, k) * REUSE_WEIGHT)
  {
    FieldMeaning(control);
    ModMod(control / FieldWeight(k));
    assert control / 1 == control;
  }

  /** The codes of the groups behind the first one. */
  lemma {:induction false} SplitBehind(words: seq<nat>, j: nat)
    requires |words| >= 4 && j < |SplitWords5x6x(words[4..]).0|
    ensures j + 3 < |SplitWords5x6x(words).0| && j + 3 < |SplitWords5x6x(words).1|
    ensures SplitWords5x6x(words).0[j + 3] == SplitWords5x6x(words[4..]).0[j]
    ensures SplitWords5x6x(words).1[j + 3] == SplitWords5x6x(words[4..]).1[j]
  {
  }

  lemma {:induction false} SplitOfGroup(words: seq<nat>, q: nat, k: nat)
    requires 4 * q + 4 <= |words| && k < 3
    ensures 3 * q + k < |words| / 4 * 3
    ensures SplitWords5x6x(words).0[3 * q + k] == ControlAt(words[4 * q], k)
    ensures SplitWords5x6x(words).1[3 * q + k] ==
            words[4 * q + k + 1] + ReuseAt(words[4 * q], k) * REUSE_WEIGHT
    decreases q
  {
    if q == 0 {
      SplitFieldMeaning(words[0], k, words[k + 1]);
    } else {
      SplitOfGroup(words[4..], q - 1, k);
      SplitBehind(words, 3 * (q - 1) + k);
    }
  }

  /** Every instruction word has its control code and its reuse bits in the control word of its group. */
  ghost predicate SplitsAt(words: seq<nat>, ctrl: seq<nat>, ins: seq<nat>, i: nat) {
    var q, k := i / 3, i % 3;
    && i < |ctrl| && i < |ins| && 4 * q + k + 1 < |words|
    && ctrl[i] == ControlAt(words[4 * q], k)
    && ins[i] == words[4 * q + k + 1] + ReuseAt(words[4 * q], k) * REUSE_WEIGHT
  }

  lemma {:induction false} SplitMeaning(words: seq<nat>, i: nat)
    requires i < |words| / 4 * 3
    ensures SplitsAt(words, SplitWords5x6x(words).0, SplitWords5x6x(words).1, i)
  {
    SplitOfGroup(words, i / 3, i % 3);
  }

  lemma SplitOneGroup(words: seq<nat>)
    requires |words| == 4
    ensures SplitWords5x6x(words) == SplitGroup(words)
  {
    assert words[4..] == [];
    assert SplitGroup(words).0 + [] == SplitGroup(words).0 && SplitGroup(words).1 + [] == SplitGroup(words).1;
  }

  lemma SplitGroupOfPrefix(words: seq<nat>)
    requires |words| >= 4
    ensures SplitGroup(words[..4]) == SplitGroup(words)
  {
    assert forall k :: 0 <= k < 4 ==> words[..4][k] == words[k];
  }

  /** The first group of words makes the first three codes, and the rest the rest. */
  lemma SplitHeadTail(words: seq<nat>)
    requires |words| >= 4
    ensures SplitWords5x6x(words).0 == SplitWords5x6x(words[..4]).0 + SplitWords5x6x(words[4..]).0
    ensures SplitWords5x6x(words).1 == SplitWords5x6x(words[..4]).1 + SplitWords5x6x(words[4..]).1
  {
    SplitOneGroup(words[..4]);
    SplitGroupOfPrefix(words);
  }

  /** A control word without bit 63. */
  function DropBit63(words: seq<nat>): (r: seq<nat>)
    ensures |r| == |words|
    ensures forall k :: 0 <= k < |words| ==> r[k] == if k % 4 == 0 then words[k] % (WORD64 / 2) else words[k]
  {
    seq(|words|, k requires 0 <= k < |words| => if k % 4 == 0 then words[k] % (WORD64 / 2) else words[k])
  }

  lemma DropBit63HeadTail(words: seq<nat>)
    requires |words| >= 4
    ensures DropBit63(words) == [words[0] % (WORD64 / 2), words[1], words[2], words[3]] + DropBit63(words[4..])
  {
    var tail := words[4..];
    assert forall k :: 0 <= k < |tail| ==> tail[k] == words[k + 4] && (k + 4) % 4 == k % 4;
  }

  /** Splitting and merging clears bit 63 of every control word and changes nothing else. */
  lemma {:induction false} MergeOfSplit5x6x(words: seq<nat>, n: nat)
    requires |words| == 4 * n && forall k :: 0 <= k < |words| ==> words[k] < WORD64
    ensures MergeTriples(SplitWords5x6x(words).1, SplitWords5x6x(words).0) == DropBit63(words)
    decreases n
  {
    if n > 0 {
      var head, tail := words[..4], words[4..];
      MergeOfSplitGroup(head);
      MergeOfSplit5x6x(tail, n - 1);
      SplitHeadTail(words);
      MergeTriplesConcat(SplitWords5x6x(head).1, SplitWords5x6x(head).0,
                         SplitWords5x6x(tail).1, SplitWords5x6x(tail).0, 1);
      DropBit63HeadTail(words);
      var (ctrl, ins) := SplitWords5x6x(head);
      assert ins[3..] == [] && ctrl[3..] == [];
      assert MergeTriples(ins, ctrl) == Remix(ins[0], ins[1], ins[2], ctrl[0], ctrl[1], ctrl[2]);
    }
  }

  lemma {:induction false} WordsBound(bytes: seq<Byte>, unit: nat)
    requires unit > 0
    ensures forall k :: 0 <= k < |Words(bytes, unit)| ==> Words(bytes, unit)[k] < Pow256(unit)
    decreases |bytes|
  {
    if |bytes| >= unit {
      FromBytesBound(bytes[..unit]);
      WordsBound(bytes[unit..], unit);
    }
  }

  lemma FlattenInjective(a: seq<nat>, b: seq<nat>, unit: nat)
    requires unit > 0 && |a| == |b|
    requires forall k :: 0 <= k < |a| ==> a[k] < Pow256(unit) && b[k] < Pow256(unit)
    ensures Flatten(a, unit) == Flatten(b, unit) <==> a == b
  {
    WordsOfFlatten(a, unit);
    WordsOfFlatten(b, unit);
  }

  lemma DropBit63Unchanged(words: seq<nat>)
    requires forall k :: 0 <= k < |words| ==> words[k] < WORD64
    ensures forall k :: 0 <= k < |words| ==> DropBit63(words)[k] < WORD64
    ensures DropBit63(words) == words <==> forall k :: 0 <= k < |words| && k % 4 == 0 ==> words[k] < WORD64 / 2
  {
    var kept := DropBit63(words);
    assert forall k :: 0 <= k < |words| && k % 4 == 0 ==> (kept[k] == words[k] <==> words[k] < WORD64 / 2);
    if forall k :: 0 <= k < |words| && k % 4 == 0 ==> words[k] < WORD64 / 2 {
      assert kept == words;
    }
  }

  lemma SplitGroups(words: seq<nat>, n: nat)
    requires |words| == 4 * n
    ensures |SplitWords5x6x(words).1| == 3 * n
    ensures PadIns(SplitWords5x6x(words).1) == SplitWords5x6x(words).1
    ensures PadCtrl(SplitWords5x6x(words).0) == SplitWords5x6x(words).0
  {
    assert 4 * n / 4 * 3 == 3 * n && 3 * n % 3 == 0;
  }

  /** A byte stream survives splitting and merging exactly when no control word has bit 63 set. */
  lemma MergeOfSplitBytes5x6x(bytes: seq<Byte>)
    requires |bytes| % 32 == 0
    ensures var words := Words(bytes, 8);
            var (ctrl, ins) := SplitWords5x6x(words);
            Flatten(MergeTriples(PadIns(ins), PadCtrl(ctrl)), 8) == bytes <==>
            forall k :: 0 <= k < |words| && k % 4 == 0 ==> words[k] < WORD64 / 2
  {
    MergeOfSplitStream(bytes, 8, |bytes| / 32);
  }

  lemma MergeOfSplitStream(bytes: seq<Byte>, unit: nat, n: nat)
    requires unit == 8 && |bytes| == 4 * n * unit
    ensures var words := Words(bytes, unit);
            var (ctrl, ins) := SplitWords5x6x(words);
            Flatten(MergeTriples(PadIns(ins), PadCtrl(ctrl)), unit) == bytes <==>
            forall k :: 0 <= k < |words| && k % 4 == 0 ==> words[k] < WORD64 / 2
  {
    var words := Words(bytes, unit);
    FlattenOfWords(bytes, unit, 4 * n);
    WordsBound(bytes, unit);
    Pow256Of8();
    MergeOfSplit5x6x(words, n);
    DropBit63Unchanged(words);
    FlattenInjective(DropBit63(words), words, unit);
    SplitGroups(words, n);
  }

  lemma Pow256Of8()
    ensures Pow256(8) == WORD64
  {
    assert Pow256(4) == 0x1_0000_0000;
    assert Pow256(8) == 0x1_0000_0000 * Pow256(4);
  }

  lemma SplitOfMergeGroup(ins: seq<nat>, ctrl: seq<nat>, rest: seq<nat>)
    requires |ins| == |ctrl| == 3
    requires forall k :: 0 <= k < 3 ==> ctrl[k] < CC_RANGE && IsInsCode5x6x(ins[k])
    ensures SplitWords5x6x(Remix(ins[0], ins[1], ins[2], ctrl[0], ctrl[1], ctrl[2]) + rest)
            == (ctrl + SplitWords5x6x(rest).0, ins + SplitWords5x6x(rest).1)
  {
    var group := Remix(ins[0], ins[1], ins[2], ctrl[0], ctrl[1], ctrl[2]);
    SplitOfMergeField(ctrl[0], ins[0]);
    SplitOfMergeField(ctrl[1], ins[1]);
    SplitOfMergeField(ctrl[2], ins[2]);
    FieldsOfPack(MergeField(ctrl[0], ins[0]).0, MergeField(ctrl[1], ins[1]).0, MergeField(ctrl[2], ins[2]).0);
    assert (group + rest)[4..] == rest;
    assert ctrl == [ctrl[0], ctrl[1], ctrl[2]] && ins == [ins[0], ins[1], ins[2]];
  }

  /** Merging and splitting whole triples is the identity. */
  lemma {:induction false} SplitOfMergeTriples(ins: seq<nat>, ctrl: seq<nat>, n: nat)
    requires |ins| == |ctrl| == 3 * n
    requires forall k :: 0 <= k < |ins| ==> ctrl[k] < CC_RANGE && IsInsCode5x6x(ins[k])
    ensures SplitWords5x6x(MergeTriples(ins, ctrl)) == (ctrl, ins)
    decreases n
  {
    if n > 0 {
      SplitOfMergeTriples(ins[3..], ctrl[3..], n - 1);
      SplitOfMergeGroup(ins[..3], ctrl[..3], MergeTriples(ins[3..], ctrl[3..]));
      assert ins == ins[..3] + ins[3..] && ctrl == ctrl[..3] + ctrl[3..];
    }
  }

  /** The bytes that merging produces. */
  function MergedBytes5x6x(ins: seq<nat>, ctrl: seq<nat>): seq<Byte>
    requires |ins| == |ctrl|
  {
    Flatten(MergeTriples(PadIns(ins), PadCtrl(ctrl)), 8)
  }

  lemma {:induction false} RemixFits(ins: seq<nat>, ctrl: seq<nat>)
    requires |ins| == |ctrl| >= 3
    requires forall k :: 0 <= k < 3 ==> ctrl[k] < CC_RANGE && IsInsCode5x6x(ins[k])
    ensures forall k :: 0 <= k < 4 ==> Remix(ins[0], ins[1], ins[2], ctrl[0], ctrl[1], ctrl[2])[k] < WORD64
  {
    SplitOfMergeField(ctrl[0], ins[0]);
    SplitOfMergeField(ctrl[1], ins[1]);
    SplitOfMergeField(ctrl[2], ins[2]);
    FieldsOfPack(MergeField(ctrl[0], ins[0]).0, MergeField(ctrl[1], ins[1]).0, MergeField(ctrl[2], ins[2]).0);
  }

  /** Merged words have 64 bits. */
  lemma {:induction false} MergedWordsFit(ins: seq<nat>, ctrl: seq<nat>)
    requires |ins| == |ctrl| && forall k :: 0 <= k < |ins| ==> ctrl[k] < CC_RANGE && IsInsCode5x6x(ins[k])
    ensures forall k :: 0 <= k < |MergeTriples(ins, ctrl)| ==> MergeTriples(ins, ctrl)[k] < WORD64
    decreases |ins|
  {
    if |ins| >= 3 {
      RemixFits(ins, ctrl);
      MergedWordsFit(ins[3..], ctrl[3..]);
    }
  }

  lemma {:induction false} TripleBytes(words: nat, n: nat)
    requires words == 4 * n
    ensures words * 8 % 32 == 0
  {
    assert words * 8 == 32 * n;
  }

  lemma {:induction false} SplitOfTripleBytes(ins: seq<nat>, ctrl: seq<nat>, n: nat)
    requires |ins| == |ctrl| == 3 * n
    requires forall k :: 0 <= k < |ins| ==> ctrl[k] < CC_RANGE && IsInsCode5x6x(ins[k])
    ensures |Flatten(MergeTriples(ins, ctrl), 8)| % 32 == 0
    ensures SplitWords5x6x(Words(Flatten(MergeTriples(ins, ctrl), 8), 8)) == (ctrl, ins)
  {
    TripleBytes(|MergeTriples(ins, ctrl)|, n);
    MergedWordsFit(ins, ctrl);
    Pow256Of8();
    WordsOfFlatten(MergeTriples(ins, ctrl), 8);
    SplitOfMergeTriples(ins, ctrl, n);
  }

  lemma {:induction false} PaddingFits(ins: seq<nat>, ctrl: seq<nat>, n: nat)
    requires |ins| == |ctrl| && n == (|ins| + 2) / 3
    requires forall k :: 0 <= k < |ins| ==> ctrl[k] < CC_RANGE && IsInsCode5x6x(ins[k])
    ensures |PadIns(ins)| == |PadCtrl(ctrl)| == 3 * n
    ensures forall k :: 0 <= k < |PadIns(ins)| ==> PadCtrl(ctrl)[k] < CC_RANGE && IsInsCode5x6x(PadIns(ins)[k])
  {
  }

  /** Merging any instructions and splitting the bytes returns them with the NOP padding at the end. */
  lemma {:induction false} SplitOfMerge5x6x(ins: seq<nat>, ctrl: seq<nat>)
    requires |ins| == |ctrl|
    requires forall k :: 0 <= k < |ins| ==> ctrl[k] < CC_RANGE && IsInsCode5x6x(ins[k])
    ensures |MergedBytes5x6x(ins, ctrl)| % 32 == 0
    ensures SplitWords5x6x(Words(MergedBytes5x6x(ins, ctrl), 8)) == (PadCtrl(ctrl), PadIns(ins))
  {
    var n := (|ins| + 2) / 3;
    PaddingFits(ins, ctrl, n);
    SplitOfTripleBytes(PadIns(ins), PadCtrl(ctrl), n);
  }

  /**
   In the merged bytes of any instructions, the control word of group `q` holds the control codes and
   the reuse bits of its instructions in their order; the fields that are left over hold 0x7e0.
   */
  lemma {:induction false} ControlWordAt(ins: seq<nat>, ctrl: seq<nat>, q: nat, k: nat)
    requires |ins| == |ctrl| && 3 * q < |ins| && k < 3
    requires forall j :: 0 <= j < |ins| ==> ctrl[j] < CC_RANGE && IsInsCode5x6x(ins[j])
    ensures 32 * q + 8 <= |MergedBytes5x6x(ins, ctrl)|
    ensures var word, i := FromBytes(MergedBytes5x6x(ins, ctrl)[32 * q..32 * q + 8]), 3 * q + k;
            && ControlAt(word, k) == (if i < |ins| then ctrl[i] else 0x7e0)
            && ReuseAt(word, k) == if i < |ins| then ins[i] / REUSE_WEIGHT else 0
  {
    SplitOfMerge5x6x(ins, ctrl);
    GroupOfPadded(ins, ctrl, q, k);
    GroupOfBytes(MergedBytes5x6x(ins, ctrl), q, k);
  }

  /** In any byte stream, the control word of group `q` holds the control codes and the reuse bits of the group. */
  lemma {:induction false} GroupOfBytes(bytes: seq<Byte>, q: nat, k: nat)
    requires 3 * q + k < |SplitWords5x6x(Words(bytes, 8)).0| && k < 3
    ensures 32 * q + 8 <= |bytes|
    ensures var word, (ctrl, ins) := FromBytes(bytes[32 * q..32 * q + 8]), SplitWords5x6x(Words(bytes, 8));
            ctrl[3 * q + k] == ControlAt(word, k) && ins[3 * q + k] / REUSE_WEIGHT == ReuseAt(word, k)
  {
    var words := Words(bytes, 8);
    assert 4 * q + 4 <= |words|;
    SplitOfGroup(words, q, k);
    WordAt(bytes, 8, 4 * q);
    WordsBound(bytes, 8);
    Pow256Of8();
    HighReuse(words[4 * q + k + 1], ReuseAt(words[4 * q], k));
  }

  /** The padded instructions of group `q`. */
  lemma GroupOfPadded(ins: seq<nat>, ctrl: seq<nat>, q: nat, k: nat)
    requires |ins| == |ctrl| && 3 * q < |ins| && k < 3
    ensures var i := 3 * q + k;
            && |PadIns(ins)| == |PadCtrl(ctrl)| == (|ins| + 2) / 3 * 3 && i < |PadIns(ins)|
            && PadCtrl(ctrl)[i] == (if i < |ins| then ctrl[i] else 0x7e0)
            && PadIns(ins)[i] == if i < |ins| then ins[i] else 0x50b0_0000_0007_0f00
  {
  }

  /** What instruction `k` adds to its field: its control code and its bits from 64 on. */
  function FieldSum(ins: seq<nat>, ctrl: seq<nat>, k: nat): nat
    requires k < |ins| && k < |ctrl|
  {
    ctrl[k] + ins[k] / 0x1_0000_0000_0000_0000
  }

  /** The sum of the fields of group `q`, at bits 0, 21 and 42. */
  function GroupSum(ins: seq<nat>, ctrl: seq<nat>, q: nat): nat
    requires 3 * q + 2 < |ins| && 3 * q + 2 < |ctrl|
  {
    FieldSum(ins, ctrl, 3 * q) + FieldSum(ins, ctrl, 3 * q + 1) * 0x20_0000
    + FieldSum(ins, ctrl, 3 * q + 2) * 0x400_0000_0000
  }

  lemma {:induction false} ControlOfGroup(ins: seq<nat>, ctrl: seq<nat>, n: nat, q: nat)
    requires |ins| == |ctrl| == 3 * n && q < n
    ensures 4 * q < |MergeTriples(ins, ctrl)| && MergeTriples(ins, ctrl)[4 * q] == GroupSum(ins, ctrl, q)
    decreases n
  {
    if q > 0 {
      ControlOfGroup(ins[3..], ctrl[3..], n - 1, q - 1);
    }
  }

  lemma {:induction false} SumOfTriples(ins: seq<nat>, ctrl: seq<nat>, n: nat, q: nat)
    requires |ins| == |ctrl| == 3 * n && q < n
    ensures 4 * q < |Words(Flatten(MergeTriples(ins, ctrl), 8), 8)|
    ensures Words(Flatten(MergeTriples(ins, ctrl), 8), 8)[4 * q] == GroupSum(ins, ctrl, q) % 0x1_0000_0000_0000_0000
  {
    ControlOfGroup(ins, ctrl, n, q);
    WordsKept(MergeTriples(ins, ctrl), 8, 4 * q);
    Pow256Of8();
  }

  /**
   Whatever the instructions and control codes: the control word of group `q` is the sum of the codes and the
   high words at bits 0, 21 and 42, as far as 64 bits hold it.
   */
  lemma {:induction false} ControlWordSum(ins: seq<nat>, ctrl: seq<nat>, q: nat)
    requires |ins| == |ctrl| && 3 * q < |ins|
    ensures 3 * q + 2 < |PadIns(ins)| == |PadCtrl(ctrl)| && 4 * q < |Words(MergedBytes5x6x(ins, ctrl), 8)|
    ensures Words(MergedBytes5x6x(ins, ctrl), 8)[4 * q] ==
            GroupSum(PadIns(ins), PadCtrl(ctrl), q) % 0x1_0000_0000_0000_0000
  {
    GroupOfPadded(ins, ctrl, q, 2);
    SumOfTriples(PadIns(ins), PadCtrl(ctrl), (|ins| + 2) / 3, q);
  }

  lemma HighReuse(word: nat, reuse: nat)
    requires word < WORD64
    ensures (word + reuse * REUSE_WEIGHT) / REUSE_WEIGHT == reuse
  {
    DivMod(reuse, word, REUSE_WEIGHT);
  }

  // ---------- Instruction addresses on sm_5x/6x ----------

  function GetInsOffsetFromIndex(idx: nat): nat {
    (idx / 3 + 1) * 8 + idx * 8
  }

  function GetInsIndexFromOffset(offset: nat): int {
    var ridx := offset / 8;
    if ridx % 4 == 0 then -1 else ridx / 4 * 3 + ridx % 4 - 1
  }

  /** The index of an instruction's offset is the index; control words have no index. */
  lemma OffsetRoundTrip(idx: nat)
    ensures GetInsIndexFromOffset(GetInsOffsetFromIndex(idx)) == idx
    ensures GetInsIndexFromOffset(idx / 3 * 32) == -1
  {
    var q, k := idx / 3, idx % 3;
    assert GetInsOffsetFromIndex(idx) == (4 * q + k + 1) * 8;
  }

  lemma {:induction false} WordOfInstruction(ins: seq<nat>, ctrl: seq<nat>, n: nat, q: nat, k: nat)
    requires |ins| == |ctrl| == 3 * n && q < n && k < 3
    ensures 4 * q + k + 1 < |MergeTriples(ins, ctrl)|
    ensures MergeTriples(ins, ctrl)[4 * q + k + 1] == ins[3 * q + k] % WORD64
    decreases n
  {
    if q > 0 {
      WordOfInstruction(ins[3..], ctrl[3..], n - 1, q - 1, k);
    }
  }

  lemma {:induction false} FlattenAt(words: seq<nat>, unit: nat, i: nat)
    requires i < |words|
    ensures i * unit + unit <= |Flatten(words, unit)|
    ensures Flatten(words, unit)[i * unit..i * unit + unit] == ToBytes(words[i], unit)
  {
    MultipleMonotone(i, |words|, unit);
    if i > 0 {
      var bytes, rest := Flatten(words, unit), Flatten(words[1..], unit);
      FlattenAt(words[1..], unit, i - 1);
      var p := (i - 1) * unit;
      assert p + unit == i * unit;
      ShiftedSlice(ToBytes(words[0], unit), rest, bytes, p, unit);
    }
  }

  lemma ShiftedSlice(front: seq<Byte>, rest: seq<Byte>, bytes: seq<Byte>, p: nat, unit: nat)
    requires bytes == front + rest && |front| == unit && p + unit <= |rest|
    ensures bytes[p + unit..p + unit + unit] == rest[p..p + unit]
  {
  }

  lemma MultipleMonotone(i: nat, n: nat, unit: nat)
    requires i < n
    ensures i * unit + unit <= n * unit
  {
    var d := n - i - 1;
    assert n * unit == i * unit + unit + d * unit;
  }

  lemma {:induction false} WordAtTripleOffset(ins: seq<nat>, ctrl: seq<nat>, n: nat, i: nat)
    requires |ins| == |ctrl| == 3 * n && i < |ins|
    ensures var offset, bytes := GetInsOffsetFromIndex(i), Flatten(MergeTriples(ins, ctrl), 8);
            offset + 8 <= |bytes| && FromBytes(bytes[offset..offset + 8]) == ins[i] % WORD64
  {
    var w := 4 * (i / 3) + i % 3 + 1;
    assert GetInsOffsetFromIndex(i) == w * 8;
    WordOfInstruction(ins, ctrl, n, i / 3, i % 3);
    FlattenAt(MergeTriples(ins, ctrl), 8, w);
    Pow256Of8();
    FromToBytes(ins[i] % WORD64, 8);
  }

  /** In the merged bytes of any instructions, the word of instruction `i` is where its offset says. */
  lemma {:induction false} WordAtOffset(ins: seq<nat>, ctrl: seq<nat>, i: nat)
    requires |ins| == |ctrl| && i < |ins|
    ensures var offset, bytes := GetInsOffsetFromIndex(i), MergedBytes5x6x(ins, ctrl);
            offset + 8 <= |bytes| && FromBytes(bytes[offset..offset + 8]) == ins[i] % WORD64
  {
    WordAtTripleOffset(PadIns(ins), PadCtrl(ctrl), |PadIns(ins)| / 3, i);
  }
}
