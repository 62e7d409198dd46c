/** The text form of control codes, and when the two forms can be turned into each other. */
module ControlCodeText {
  import opened Wrappers
  import opened ControlCode
  import opened ReposLexer
  import opened ReposNumbers

  /** Characters of the text up to the last stall digit. */
  const TEXT_LENGTH: nat := 19

  // ---------- Printing ----------

  function SlotChar(slot: nat): char
    requires slot < 8
  {
    '0' + slot as char
  }

  function BarChar(field: nat): char
    requires field < 8
  {
    if field == NO_SCOREBOARD then '-' else SlotChar(field)
  }

  /** The first `n` wait flags. */
  function WaitText(mask: nat, n: nat): (s: string)
    requires n <= SLOT_COUNT
    ensures |s| == n
    ensures forall i :: 0 <= i < n ==> s[i] == if HasBit(mask, i) then SlotChar(i) else '-'
  {
    if n == 0 then "" else WaitText(mask, n - 1) + [if HasBit(mask, n - 1) then SlotChar(n - 1) else '-']
  }

  function TwoDigits(v: nat): string
    requires v < 100
  {
    [DigitChar(v / 10), DigitChar(v % 10)]
  }

  function TextOf(cc: CuControlCode): (s: string)
    requires cc.Valid()
    ensures |s| == TEXT_LENGTH
  {
    "B" + WaitText(cc.barrier, SLOT_COUNT) + ":R" + [BarChar(cc.read)] + ":W" + [BarChar(cc.write)]
    + ":" + (if cc.yieldFlag != 0 then "-" else "Y") + ":S" + TwoDigits(cc.stall)
  }

  method Decode(code: Word32) returns (s: string)
    ensures s == TextOf(SplitCode(code))
  {
    var cc := SplitCode(code);
    var sWaitbar := "";
    for i := 0 to SLOT_COUNT
      invariant sWaitbar == WaitText(cc.barrier, i)
    {
      sWaitbar := sWaitbar + [if HasBit(cc.barrier, i) then SlotChar(i) else '-'];
    }
    s := "B" + sWaitbar + ":R" + [BarChar(cc.read)] + ":W" + [BarChar(cc.write)]
      + ":" + (if cc.yieldFlag != 0 then "-" else "Y") + ":S" + TwoDigits(cc.stall);
  }

  // ---------- Reading ----------

  /** A scoreboard field that can be read: a slot below six, or none. */
  predicate IsBarChar(c: char) {
    c == '-' || '0' <= c <= '5'
  }

  /** The text starts like a control code; anything may follow. */
  predicate MatchesPattern(s: string) {
    && |s| >= TEXT_LENGTH
    && s[0] == 'B' && (forall i: nat :: i < SLOT_COUNT ==> s[1 + i] == '-' || s[1 + i] == SlotChar(i))
    && s[7] == ':' && s[8] == 'R' && IsBarChar(s[9])
    && s[10] == ':' && s[11] == 'W' && IsBarChar(s[12])
    && s[13] == ':' && (s[14] == 'Y' || s[14] == '-')
    && s[15] == ':' && s[16] == 'S' && IsDigit(s[17]) && IsDigit(s[18])
  }

  /** The mask of the first `n` wait flags. */
  function WaitMask(s: string, n: nat): (m: nat)
    requires n < |s|
  {
    if n == 0 then 0
    else if s[n] != '-' then SetBit(WaitMask(s, n - 1), n - 1)
    else WaitMask(s, n - 1)
  }

  function BarField(c: char): (f: nat)
    requires IsBarChar(c)
    ensures f < 8
  {
    if c == '-' then NO_SCOREBOARD else (c - '0') as nat
  }

  /** The stall count: all digits from position 17 on. */
  function StallOf(s: string): Option<nat>
    requires |s| >= TEXT_LENGTH
  {
    Value(Span(s[17..], IsDigit).0, 10)
  }

  /** The fields of a text. */
  function FieldsOfText(s: string, stall: nat): (cc: CuControlCode)
    requires MatchesPattern(s)
    ensures cc.barrier < 64 && cc.read < 8 && cc.write < 8 && cc.yieldFlag < 2 && cc.stall == stall
  {
    WaitMaskFits(s, SLOT_COUNT);
    CuControlCode(WaitMask(s, SLOT_COUNT), BarField(s[9]), BarField(s[12]), if s[14] == 'Y' then 0 else 1, stall)
  }

  function Merged(cc: CuControlCode): Word32
    requires cc.barrier < 64 && cc.read < 8 && cc.write < 8 && cc.yieldFlag < 2 && cc.stall < 0x1_0000_0000
  {
    MergeCode(cc.barrier, cc.read, cc.write, cc.yieldFlag, cc.stall)
  }

  /** The code of a text; fails where the pattern does not match, or the stall count exceeds 64 bits. */
  function CodeOf(s: string): Option<Word32> {
    if !MatchesPattern(s) then None
    else
      match StallOf(s)
      case None => None
      case Some(stall) =>
        if stall >= 0x1_0000_0000_0000_0000 then None else Some(Merged(FieldsOfText(s, Truncate32(stall))))
  }

  method Encode(s: string) returns (r: Option<Word32>)
    ensures r == CodeOf(s)
  {
    if !MatchesPattern(s) {
      return None;
    }
    var waitbar: nat := 0;
    for i := 0 to SLOT_COUNT
      invariant waitbar == WaitMask(s, i)
    {
      if s[1 + i] != '-' {
        waitbar := SetBit(waitbar, i);
      }
    }
    var stall := StallOf(s);
    if stall.None? || stall.value >= 0x1_0000_0000_0000_0000 {
      return None;
    }
    WaitMaskFits(s, SLOT_COUNT);
    var yieldFlag := if s[14] == 'Y' then 0 else 1;
    return Some(MergeCode(waitbar, BarField(s[9]), BarField(s[12]), yieldFlag, Truncate32(stall.value)));
  }

  // ---------- Wait masks ----------

  /** Numbers of `n` bits with the same bits are equal. */
  lemma {:induction false} SameBits(a: nat, b: nat, n: nat)
    requires a < Pow2(n) && b < Pow2(n) && forall j: nat :: HasBit(a, j) <==> HasBit(b, j)
    ensures a == b
  {
    if n > 0 {
      forall j: nat
        ensures HasBit(a / 2, j) <==> HasBit(b / 2, j)
      {
        assert HasBit(a, j + 1) <==> HasBit(b, j + 1);
      }
      SameBits(a / 2, b / 2, n - 1);
      assert HasBit(a, 0) <==> HasBit(b, 0);
    }
  }

  /** The bits of a read mask are the flags that are set. */
  lemma {:induction false} WaitMaskBits(s: string, n: nat, j: nat)
    requires n < |s|
    ensures HasBit(WaitMask(s, n), j) <==> j < n && s[1 + j] != '-'
  {
    if n == 0 {
      ZeroHasNoBits(j);
    } else {
      WaitMaskBits(s, n - 1, j);
      SetBitSets(WaitMask(s, n - 1), n - 1, j);
    }
  }

  lemma {:induction false} WaitMaskFits(s: string, n: nat)
    requires n < |s| && n <= SLOT_COUNT
    ensures WaitMask(s, n) < 64
  {
    assert Pow2(6) == 64;
    if n > 0 {
      WaitMaskFits(s, n - 1);
      SetBitFits(WaitMask(s, n - 1), n - 1, 6);
    }
  }

  lemma {:induction false} HighBitsClear(mask: nat, n: nat, j: nat)
    requires mask < Pow2(n) && j >= n
    ensures !HasBit(mask, j)
  {
    if n == 0 {
      ZeroHasNoBits(j);
    } else {
      HighBitsClear(mask / 2, n - 1, j - 1);
    }
  }

  /** Wait flags that show a mask are read as that mask, and only they. */
  lemma FlagsAreMask(s: string, mask: nat)
    requires MatchesPattern(s) && mask < 64
    ensures s[1..7] == WaitText(mask, SLOT_COUNT) <==> WaitMask(s, SLOT_COUNT) == mask
  {
    assert Pow2(6) == 64;
    WaitMaskFits(s, SLOT_COUNT);
    var m := WaitMask(s, SLOT_COUNT);
    forall j: nat
      ensures HasBit(m, j) <==> j < SLOT_COUNT && s[1 + j] != '-'
      ensures HasBit(mask, j) ==> j < SLOT_COUNT
    {
      WaitMaskBits(s, SLOT_COUNT, j);
      if j >= SLOT_COUNT {
        HighBitsClear(mask, 6, j);
      }
    }
    if s[1..7] == WaitText(mask, SLOT_COUNT) {
      forall j: nat
        ensures HasBit(m, j) <==> HasBit(mask, j)
      {
        assert j < SLOT_COUNT ==> s[1..7][j] == s[1 + j];
      }
      SameBits(m, mask, 6);
    }
    if m == mask {
      forall i | 0 <= i < SLOT_COUNT
        ensures s[1..7][i] == WaitText(mask, SLOT_COUNT)[i]
      {
        assert s[1..7][i] == s[1 + i];
      }
    }
  }

  // ---------- Stall counts ----------

  lemma ValueOfTwo(a: char, b: char)
    requires IsDigit(a) && IsDigit(b)
    ensures Value([a, b], 10) == Some(10 * (a - '0') as nat + (b - '0') as nat)
  {
    assert [a, b][..1] == [a];
    assert [a][..0] == "";
    assert Value([a], 10) == Some((a - '0') as nat);
  }

  /** A text that ends behind two digits has them as its stall count. */
  lemma StallOfExact(s: string)
    requires |s| == TEXT_LENGTH && IsDigit(s[17]) && IsDigit(s[18])
    ensures StallOf(s) == Some(10 * (s[17] - '0') as nat + (s[18] - '0') as nat)
  {
    var t := s[17..];
    assert t == [s[17], s[18]] && t + "" == t;
    SpanExact(t, "", IsDigit);
    ValueOfTwo(s[17], s[18]);
  }

  lemma DigitsOfStall(a: char, b: char, v: nat)
    requires IsDigit(a) && IsDigit(b) && v < 100
    ensures [a, b] == TwoDigits(v) <==> 10 * (a - '0') as nat + (b - '0') as nat == v
  {
    assert [a, b] == TwoDigits(v) <==> a == DigitChar(v / 10) && b == DigitChar(v % 10);
  }

  // ---------- Round trips ----------

  /** The places of a text. */
  lemma PlacesOf(cc: CuControlCode)
    requires cc.Valid()
    ensures var s := TextOf(cc);
            && s[0] == 'B' && s[1..7] == WaitText(cc.barrier, SLOT_COUNT) && s[7] == ':' && s[8] == 'R'
            && s[9] == BarChar(cc.read) && s[10] == ':' && s[11] == 'W' && s[12] == BarChar(cc.write) && s[13] == ':'
            && s[14] == (if cc.yieldFlag != 0 then '-' else 'Y') && s[15] == ':' && s[16] == 'S'
            && s[17] == DigitChar(cc.stall / 10) && s[18] == DigitChar(cc.stall % 10)
  {
  }

  /** The text of the control code that pads instructions: no waits, no scoreboards, yield, no stall. */
  lemma PaddingText()
    ensures TextOf(SplitCode(0x7e0)) == "B------:R-:W-:Y:S00"
  {
    assert SplitCode(0x7e0) == CuControlCode(0, 7, 7, 0, 0);
    forall i: nat | i < SLOT_COUNT
      ensures !HasBit(0, i)
    {
      ZeroHasNoBits(i);
    }
    assert WaitText(0, SLOT_COUNT) == "------";
  }

  lemma TextMatches(cc: CuControlCode)
    requires cc.Valid()
    ensures MatchesPattern(TextOf(cc)) <==> cc.read != 6 && cc.write != 6
  {
    PlacesOf(cc);
    var s := TextOf(cc);
    forall i: nat | i < SLOT_COUNT
      ensures s[1 + i] == '-' || s[1 + i] == SlotChar(i)
    {
      assert s[1..7][i] == s[1 + i];
    }
  }

  lemma SmallWord(v: nat)
    requires v < 100
    ensures Truncate32(v) == v
  {
  }

  /** Reading merges the fields, whatever the stall count. */
  lemma CodeOfFields(s: string, stall: nat)
    requires MatchesPattern(s) && StallOf(s) == Some(stall) && stall < 100
    ensures var cc := FieldsOfText(s, stall);
            CodeOf(s) == Some(Merged(cc))
  {
    SmallWord(stall);
  }

  /** A text that is read as fields is printed from them. */
  lemma TextOfFields(s: string, stall: nat)
    requires MatchesPattern(s) && |s| == TEXT_LENGTH && StallOf(s) == Some(stall) && stall <= MAX_STALL
    ensures TextOf(FieldsOfText(s, stall)) == s
  {
    var cc := FieldsOfText(s, stall);
    var t := TextOf(cc);
    PlacesOf(cc);
    FlagsAreMask(s, cc.barrier);
    StallOfExact(s);
    DigitsOfStall(s[17], s[18], stall);
    assert [s[17], s[18]] == TwoDigits(stall);
    forall i | 0 <= i < TEXT_LENGTH
      ensures t[i] == s[i]
    {
      assert 1 <= i < 7 ==> t[1..7][i - 1] == t[i] && s[1..7][i - 1] == s[i];
    }
  }

  /** Fields are read from the text printed of them. */
  lemma FieldsOfPrinted(cc: CuControlCode)
    requires cc.Valid() && cc.read != 6 && cc.write != 6
    ensures MatchesPattern(TextOf(cc)) && StallOf(TextOf(cc)) == Some(cc.stall)
    ensures FieldsOfText(TextOf(cc), cc.stall) == cc
  {
    var s := TextOf(cc);
    TextMatches(cc);
    PlacesOf(cc);
    FlagsAreMask(s, cc.barrier);
    StallOfExact(s);
    DigitsOfStall(s[17], s[18], cc.stall);
    assert [s[17], s[18]] == TwoDigits(cc.stall);
  }

  /**
   A printed control code is read back as its 17 bits, unless a scoreboard field is 6: that is printed but not
   read.
   */
  lemma CodeOfText(code: Word32)
    ensures var cc := SplitCode(code);
            CodeOf(TextOf(cc)) == if cc.read == 6 || cc.write == 6 then None else Some(code % 0x2_0000)
  {
    var cc := SplitCode(code);
    TextMatches(cc);
    if cc.read != 6 && cc.write != 6 {
      FieldsOfPrinted(cc);
      CodeOfFields(TextOf(cc), cc.stall);
      MergeOfSplit(code);
    }
  }

  lemma LowNibble(w: nat, r: nat, b: nat, y: nat, stall: nat)
    requires w < 64 && r < 8 && b < 8 && y < 2 && stall < 100
    ensures SplitCode(MergeCode(w, r, b, y, stall)).stall == stall % 16
  {
    var c, q := w * 2048 + r * 256 + b * 32 + y * 16 + stall, w * 128 + r * 16 + b * 2 + y + stall / 16;
    assert c == q * 16 + stall % 16;
    DivMod(q, stall % 16, 16);
    assert MergeCode(w, r, b, y, stall) == c;
  }

  /** A stall count beyond four bits spills into the other fields. */
  lemma StallSpills(s: string, stall: nat)
    requires MatchesPattern(s) && |s| == TEXT_LENGTH && StallOf(s) == Some(stall) && MAX_STALL < stall < 100
    ensures CodeOf(s).Some? && TextOf(SplitCode(CodeOf(s).value)) != s
  {
    var cc := FieldsOfText(s, stall);
    CodeOfFields(s, stall);
    LowNibble(cc.barrier, cc.read, cc.write, cc.yieldFlag, stall);
    var back := SplitCode(CodeOf(s).value);
    PlacesOf(back);
    StallOfExact(s);
    DigitsOfStall(s[17], s[18], back.stall);
    assert back.stall != stall;
  }

  /** A text that is read is printed again exactly if it ends behind its stall count and that is at most 15. */
  lemma TextOfCode(s: string)
    requires CodeOf(s).Some?
    ensures TextOf(SplitCode(CodeOf(s).value)) == s <==> |s| == TEXT_LENGTH && StallOf(s).value <= MAX_STALL
  {
    if |s| == TEXT_LENGTH {
      StallOfExact(s);
      var stall := StallOf(s).value;
      if stall <= MAX_STALL {
        CodeOfFields(s, stall);
        TextOfFields(s, stall);
        SplitOfMerge(FieldsOfText(s, stall));
      } else {
        StallSpills(s, stall);
      }
    }
  }
}
