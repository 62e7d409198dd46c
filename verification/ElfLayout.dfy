/** Laying out sections and writing them to a file. */
module ElfLayout {
  /**
   Laying out the sections of a cubin and writing them: where the layout says a section, the section
   headers and the program headers are, there the writer puts them.
   */

  import opened Wrappers
  import opened Bytes

  const FILE_HEADER: nat := 64
  const SECTION_HEADER: nat := 64
  const SEGMENT_HEADER: nat := 56
  const TEXT_ALIGN: nat := 128

  datatype LayoutError = InvalidPadding | OutOfBoundary

  /** The position moved up to a multiple of the alignment, and by how much; 0 and 1 align nothing. */
  function AlignTo(pos: nat, align: nat): (r: (nat, nat))
    ensures r.0 == pos + r.1
    ensures align <= 1 ==> r.1 == 0
    ensures align > 1 ==> r.1 < align && exists q: nat :: r.0 == q * align
  {
    if align <= 1 then (pos, 0)
    else
      var q := (pos + align - 1) / align;
      RoundUp(pos, align, q);
      (q * align, q * align - pos)
  }

  lemma RoundUp(pos: nat, align: nat, q: nat)
    requires align > 1 && q == (pos + align - 1) / align
    ensures pos <= q * align < pos + align
  {
    var n := pos + align - 1;
    assert n == align * (n / align) + n % align;
    assert q * align == align * q;
  }

  function ZeroBytes(n: nat): (z: seq<Byte>)
    ensures |z| == n
  {
    seq(n, _ => 0)
  }

  predicate IsText(name: string) {
    ".text" <= name
  }

  // ---------- Section buffers ----------

  /** The buffer, long enough for `end` bytes. */
  function Grown(d: seq<Byte>, end: nat): (g: seq<Byte>)
    ensures |g| == if end > |d| then end else |d|
    ensures forall i :: 0 <= i < |g| ==> g[i] == if i < |d| then d[i] else 0
  {
    if end > |d| then d + ZeroBytes(end - |d|) else d
  }

  /** The buffer with bytes written at a position. */
  function Overwritten(d: seq<Byte>, p: nat, bs: seq<Byte>): (g: seq<Byte>)
    ensures |g| == if p + |bs| > |d| then p + |bs| else |d|
    ensures g[p..p + |bs|] == bs
    ensures forall i :: 0 <= i < |g| && !(p <= i < p + |bs|) ==> g[i] == if i < |d| then d[i] else 0
  {
    var w := Grown(d, p + |bs|);
    w[..p] + bs + w[p + |bs|..]
  }

  /** What the layout and the writer see of a section. */
  datatype SectionValue = SectionValue(name: string, nobits: bool, addralign: nat, offset: nat, data: seq<Byte>,
                                       padbytes: seq<Byte>)
  {
    /** The bytes the section occupies in the file. */
    function FileBytes(): seq<Byte> {
      if nobits then [] else data + padbytes
    }

    function FileSize(): nat {
      if nobits then 0 else |data| + |padbytes|
    }
  }

  class CuAsmSection {
    const name: string
    const nobits: bool
    var addralign: nat
    var offset: nat
    var size: nat
    var padbytes: seq<Byte>
    var data: seq<Byte>
    var pos: nat

    constructor (name: string, nobits: bool)
      ensures this.name == name && this.nobits == nobits && data == [] && padbytes == [] && addralign == 0
    {
      this.name, this.nobits := name, nobits;
      addralign, offset, size, pos := 0, 0, 0, 0;
      padbytes, data := [], [];
    }

    ghost function Value(): SectionValue
      reads this
    {
      SectionValue(name, nobits, addralign, offset, data, padbytes)
    }

    /** Writes at the current position, growing the buffer as needed. */
    method EmitBytes(bs: seq<Byte>)
      modifies this`data, this`pos
      ensures data == Overwritten(old(data), old(pos), bs) && pos == old(pos) + |bs|
    {
      if pos + |bs| > |data| {
        data := data + ZeroBytes(pos + |bs| - |data|);
      }
      data := data[..pos] + bs + data[pos + |bs|..];
      pos := pos + |bs|;
    }

    /** Appends without moving the current position. */
    method EmitPadding(bs: seq<Byte>)
      modifies this`data, this`pos
      ensures data == old(data) + bs && pos == old(pos)
    {
      var p := pos;
      pos := |data|;
      EmitBytes(bs);
      pos := p;
    }

    /** Replaces bytes inside the buffer without moving the current position. */
    method UpdateForFixup(fixupOffset: nat, bs: seq<Byte>) returns (r: Result<(), LayoutError>)
      modifies this`data, this`pos
      ensures r.Failure? <==> fixupOffset + |bs| > |old(data)|
      ensures r.Failure? ==> data == old(data) && r.error == OutOfBoundary
      ensures pos == old(pos) && |data| == |old(data)|
      ensures r.Success? ==> data == old(data)[..fixupOffset] + bs + old(data)[fixupOffset + |bs|..]
    {
      if fixupOffset + |bs| > |data| {
        return Failure(OutOfBoundary);
      }
      var opos := pos;
      pos := fixupOffset;
      EmitBytes(bs);
      pos := opos;
      return Success(());
    }

    /** Pads with zeros to an alignment; at the very start it sets the alignment of the section instead. */
    method EmitAlign(align: nat)
      modifies this`data, this`pos, this`addralign
      ensures old(pos) == 0 ==>
                data == old(data) && pos == 0 && addralign == if old(addralign) == 0 then align else old(addralign)
      ensures old(pos) != 0 ==>
                && pos == AlignTo(old(pos), align).0 && addralign == old(addralign)
                && data == (if pos == old(pos) then old(data)
                            else Overwritten(old(data), old(pos), ZeroBytes(pos - old(pos))))
    {
      if pos == 0 {
        if addralign == 0 {
          addralign := align;
        }
      } else {
        var (ppos, _) := AlignTo(pos, align);
        if ppos > pos {
          EmitBytes(ZeroBytes(ppos - pos));
        }
      }
    }
  }

  // ---------- Where sections lie ----------

  function SumTo(sizes: seq<nat>, k: nat): nat
    requires k <= |sizes|
  {
    if k == 0 then 0 else SumTo(sizes, k - 1) + sizes[k - 1]
  }

  /** Growing one section moves what follows it. */
  lemma {:induction false} SumUpdate(sizes: seq<nat>, sizes': seq<nat>, j: nat, d: nat, k: nat)
    requires |sizes'| == |sizes| && j < |sizes| && k <= |sizes|
    requires forall i :: 0 <= i < |sizes| ==> sizes'[i] == if i == j then sizes[i] + d else sizes[i]
    ensures SumTo(sizes', k) == if k > j then SumTo(sizes, k) + d else SumTo(sizes, k)
  {
    if k > 0 {
      SumUpdate(sizes, sizes', j, d, k - 1);
    }
  }

  lemma {:induction false} SumSame(sizes: seq<nat>, sizes': seq<nat>, k: nat)
    requires k <= |sizes| && k <= |sizes'| && forall i :: 0 <= i < k ==> sizes'[i] == sizes[i]
    ensures SumTo(sizes', k) == SumTo(sizes, k)
  {
    if k > 0 {
      SumSame(sizes, sizes', k - 1);
    }
  }

  ghost function Sizes(vals: seq<SectionValue>): (sizes: seq<nat>)
    ensures |sizes| == |vals| && forall i :: 0 <= i < |vals| ==> sizes[i] == vals[i].FileSize()
  {
    seq(|vals|, i requires 0 <= i < |vals| => vals[i].FileSize())
  }

  /** The null section holds nothing, and nothing is padded yet. */
  ghost predicate WellFormed(vals: seq<SectionValue>) {
    forall i :: 0 <= i < |vals| ==> vals[i].padbytes == [] && (vals[i].name == "" ==> vals[i].FileSize() == 0)
  }

  /** Each of the first `k` sections but the null section lies where the sections before it end. */
  ghost predicate OffsetsAgree(vals: seq<SectionValue>, k: nat)
    requires k <= |vals|
  {
    forall i {:trigger vals[i].offset} ::
      0 <= i < k && vals[i].name != "" ==> vals[i].offset == FILE_HEADER + SumTo(Sizes(vals), i)
  }

  /** Repeated padding. */
  function Repeated(pad: seq<Byte>, n: nat): (bs: seq<Byte>)
    ensures |bs| == n * |pad|
  {
    if n == 0 then [] else pad + Repeated(pad, n - 1)
  }

  /** Padding for a section: the architecture's NOP bytes for text, zeros otherwise. */
  method GenSectionPaddingBytes(name: string, padSize: nat, archPad: seq<Byte>)
    returns (r: Result<seq<Byte>, LayoutError>)
    ensures r.Success? <==> !IsText(name) || (|archPad| > 0 && padSize % |archPad| == 0)
    ensures r.Failure? ==> r.error == InvalidPadding
    ensures r.Success? ==> |r.value| == padSize
    ensures r.Success? && IsText(name) ==> r.value == Repeated(archPad, padSize / |archPad|)
  {
    var padbytes := if IsText(name) then archPad else [0];
    if |padbytes| == 0 || padSize % |padbytes| != 0 {
      return Failure(InvalidPadding);
    }
    var npad := padSize / |padbytes|;
    var out: seq<Byte> := [];
    for i := 0 to npad
      invariant out + Repeated(padbytes, npad - i) == Repeated(padbytes, npad)
    {
      RepeatedStep(out, padbytes, npad - i);
      out := out + padbytes;
    }
    assert out + [] == out;
    WholeMultiple(padSize, |padbytes|);
    return Success(out);
  }

  lemma WholeMultiple(n: nat, m: nat)
    requires m > 0 && n % m == 0
    ensures n / m * m == n
  {
  }

  lemma RepeatedStep(out: seq<Byte>, pad: seq<Byte>, n: nat)
    requires n > 0
    ensures out + Repeated(pad, n) == (out + pad) + Repeated(pad, n - 1)
  {
  }

  // ---------- Layout ----------

  function Max(a: nat, b: nat): nat {
    if a >= b then a else b
  }

  /** The alignment of what follows, raised by the own alignment of a text section. */
  function PaddingAlign(name: string, addralign: nat, align: nat): nat {
    if IsText(name) then Max(align, addralign) else align
  }

  /** The alignment a section gives the one before it; text asks for 128 bytes, but not before memory-only sections. */
  function AlignBefore(prevName: string, nobits: bool, addralign: nat): nat {
    if IsText(prevName) && !nobits then TEXT_ALIGN else addralign
  }

  // ---------- The layout as a function of the sections ----------

  /** The last section before `i` that is not the null section; -1 if there is none. */
  function Prev(vals: seq<SectionValue>, i: nat): (j: int)
    requires i <= |vals|
    ensures -1 <= j < i && (j >= 0 ==> vals[j].name != "") && forall k :: j < k < i ==> vals[k].name == ""
  {
    if i == 0 then -1 else if vals[i - 1].name != "" then i - 1 else Prev(vals, i - 1)
  }

  /** The alignment to which section `j` is padded in front of section `i`. */
  function AlignBetween(vals: seq<SectionValue>, j: nat, i: nat): nat
    requires j < i < |vals|
  {
    PaddingAlign(vals[j].name, vals[j].addralign, AlignBefore(vals[j].name, vals[i].nobits, vals[i].addralign))
  }

  /** How far the file offset moves in front of section `i`. */
  function Gap(vals: seq<SectionValue>, i: nat, fileOffset: nat): nat
    requires i < |vals|
  {
    var j := Prev(vals, i);
    if j < 0 || (vals[j].nobits && !IsText(vals[j].name)) then 0 else AlignTo(fileOffset, AlignBetween(vals, j, i)).1
  }

  /** The file offset behind the first `i` sections. */
  function EndOf(vals: seq<SectionValue>, i: nat): nat
    requires i <= |vals|
  {
    if i == 0 then FILE_HEADER
    else
      var end := EndOf(vals, i - 1);
      if vals[i - 1].name == "" then end
      else end + Gap(vals, i - 1, end) + if vals[i - 1].nobits then 0 else |vals[i - 1].data|
  }

  /** The file offset of section `i`. */
  function StartOf(vals: seq<SectionValue>, i: nat): nat
    requires i < |vals|
  {
    EndOf(vals, i) + Gap(vals, i, EndOf(vals, i))
  }

  /** The section before section `i` is text without bytes in the file. */
  predicate AfterMemoryText(vals: seq<SectionValue>, i: nat)
    requires i < |vals|
  {
    var j := Prev(vals, i);
    vals[i].name != "" && j >= 0 && IsText(vals[j].name) && vals[j].nobits
  }

  /** The file offset counts this much for padding that is never written. */
  function Drift(vals: seq<SectionValue>, i: nat): nat
    requires i <= |vals|
  {
    if i == 0 then 0
    else Drift(vals, i - 1) + if AfterMemoryText(vals, i - 1) then Gap(vals, i - 1, EndOf(vals, i - 1)) else 0
  }

  /** Every memory-only text section with a successor starts at an offset that needs no padding. */
  predicate MemoryTextAligned(vals: seq<SectionValue>) {
    forall i: nat :: i < |vals| && AfterMemoryText(vals, i) ==>
      AlignTo(StartOf(vals, Prev(vals, i)), AlignBetween(vals, Prev(vals, i), i)).1 == 0
  }

  /** Text in front of section `i` can be padded with whole NOPs. */
  predicate GapFits(vals: seq<SectionValue>, archPad: seq<Byte>, i: nat)
    requires i < |vals|
  {
    var j := Prev(vals, i);
    vals[i].name != "" && j >= 0 && IsText(vals[j].name) ==>
      |archPad| > 0 && Gap(vals, i, EndOf(vals, i)) % |archPad| == 0
  }

  predicate GapsFit(vals: seq<SectionValue>, archPad: seq<Byte>) {
    forall i: nat :: i < |vals| ==> GapFits(vals, archPad, i)
  }

  /** Behind a section the file offset is where its bytes in the file end. */
  lemma {:induction false} EndIsBehind(vals: seq<SectionValue>, i: nat)
    requires i <= |vals| && Prev(vals, i) >= 0
    ensures EndOf(vals, i) == StartOf(vals, Prev(vals, i)) + FileLength(vals[Prev(vals, i)])
  {
    if vals[i - 1].name == "" {
      EndIsBehind(vals, i - 1);
    }
  }

  /** In front of the first section there is the file header. */
  lemma {:induction false} StartsBehindHeader(vals: seq<SectionValue>, i: nat)
    requires i <= |vals| && forall k :: 0 <= k < i ==> vals[k].name == ""
    ensures EndOf(vals, i) == 64 && (i < |vals| ==> StartOf(vals, i) == 64)
  {
    if i > 0 {
      StartsBehindHeader(vals, i - 1);
    }
  }

  /** The bytes of a section in the file, before it is padded. */
  function FileLength(v: SectionValue): nat {
    if v.nobits then 0 else |v.data|
  }

  /** Sections `j` and `i` have nothing but null sections between them. */
  predicate Neighbours(vals: seq<SectionValue>, j: nat, i: nat)
    requires j < i < |vals|
  {
    vals[j].name != "" && vals[i].name != "" && forall k :: j < k < i ==> vals[k].name == ""
  }

  /**
   What padding in front of a section is for. Behind text it aligns file bytes to 128 and to the
   alignment of the text, and memory-only bytes to both own alignments; behind other file bytes it aligns
   to the alignment of the section; behind memory-only bytes it does nothing.
   */
  function AskedFor(v: SectionValue, next: SectionValue): nat {
    var other := if next.nobits then next.addralign else 128;
    if ".text" <= v.name then if other >= v.addralign then other else v.addralign
    else if v.nobits then 1
    else next.addralign
  }

  /** An offset is the first one from `end` on that is a multiple of `a`; 0 and 1 ask for nothing. */
  predicate FirstAligned(offset: nat, end: nat, a: nat) {
    end <= offset && if a > 1 then offset % a == 0 && offset - end < a else offset == end
  }

  lemma AlignToIsFirst(pos: nat, a: nat)
    ensures FirstAligned(AlignTo(pos, a).0, pos, a)
  {
    if a > 1 {
      var q: nat :| AlignTo(pos, a).0 == q * a;
      MultipleHasNoRest(q, a);
    }
  }

  lemma MultipleHasNoRest(q: nat, a: nat)
    requires a > 1
    ensures q * a % a == 0
  {
    var d := q - q * a / a;
    assert d * a == q * a % a;
    assert d >= 1 ==> d * a >= a;
    assert d <= -1 ==> d * a + a <= 0;
  }

  /** Every section starts at the first offset behind its neighbour that is aligned as asked for. */
  lemma {:induction false} StartMeaning(vals: seq<SectionValue>, j: nat, i: nat)
    requires j < i < |vals| && Neighbours(vals, j, i)
    ensures FirstAligned(StartOf(vals, i), StartOf(vals, j) + FileLength(vals[j]), AskedFor(vals[j], vals[i]))
  {
    assert Prev(vals, i) == j;
    EndIsBehind(vals, i);
    AlignToIsFirst(EndOf(vals, i), if vals[j].nobits && !IsText(vals[j].name) then 1 else AlignBetween(vals, j, i));
  }

  /** The end of the last section. */
  lemma {:induction false} EndMeaning(vals: seq<SectionValue>, i: nat)
    requires i < |vals| && vals[i].name != "" && forall k :: i < k < |vals| ==> vals[k].name == ""
    ensures EndOf(vals, |vals|) == StartOf(vals, i) + FileLength(vals[i])
  {
    assert Prev(vals, |vals|) == i;
    EndIsBehind(vals, |vals|);
  }

  lemma {:induction false} DriftGrows(vals: seq<SectionValue>, i: nat, k: nat)
    requires i <= k <= |vals|
    ensures Drift(vals, i) <= Drift(vals, k)
  {
    if i < k {
      DriftGrows(vals, i, k - 1);
    }
  }

  /** There is drift exactly where a memory-only text section needs padding. */
  lemma {:induction false} DriftIffUnaligned(vals: seq<SectionValue>, k: nat)
    requires k <= |vals|
    ensures Drift(vals, k) == 0 <==>
              forall i: nat :: i < k && AfterMemoryText(vals, i) ==>
                AlignTo(StartOf(vals, Prev(vals, i)), AlignBetween(vals, Prev(vals, i), i)).1 == 0
  {
    if k > 0 {
      DriftIffUnaligned(vals, k - 1);
      if AfterMemoryText(vals, k - 1) {
        EndIsBehind(vals, k - 1);
      }
    }
  }

  /** Without text sections in front of others the layout always succeeds. */
  lemma NoTextFits(vals: seq<SectionValue>, archPad: seq<Byte>)
    requires forall i :: 0 <= i < |vals| ==> !IsText(vals[i].name)
    ensures GapsFit(vals, archPad) && MemoryTextAligned(vals)
  {
  }

  /** With bytes in the file for all text, nothing drifts. */
  lemma FileTextAligned(vals: seq<SectionValue>)
    requires forall i :: 0 <= i < |vals| && IsText(vals[i].name) ==> !vals[i].nobits
    ensures MemoryTextAligned(vals)
  {
  }

  /** A memory-only text section right behind the file header, in front of data: 64 bytes of padding are not written. */
  lemma MemoryTextDrifts(data: seq<Byte>, archPad: seq<Byte>)
    requires |archPad| == 16
    ensures var vals := [SectionValue("", false, 0, 0, [], []), SectionValue(".text.kernel", true, 128, 0, data, []),
                         SectionValue(".nv.info", false, 4, 0, data, [])];
            WellFormed(vals) && GapsFit(vals, archPad) && !MemoryTextAligned(vals) && Drift(vals, 3) == 64
  {
    var vals := [SectionValue("", false, 0, 0, [], []), SectionValue(".text.kernel", true, 128, 0, data, []),
                 SectionValue(".nv.info", false, 4, 0, data, [])];
    assert ".text.kernel"[..5] == ".text";
    assert Prev(vals, 0) == -1 && Prev(vals, 1) == -1 && Prev(vals, 2) == 1;
    assert EndOf(vals, 0) == 64 && EndOf(vals, 1) == 64 && EndOf(vals, 2) == 64;
    assert AlignBetween(vals, 1, 2) == 128 && AlignTo(64, 128).1 == 64;
    assert !AfterMemoryText(vals, 0) && !AfterMemoryText(vals, 1) && AfterMemoryText(vals, 2);
    assert Drift(vals, 0) == Drift(vals, 1) == Drift(vals, 2) == 0;
    assert !IsText("") && !IsText(".nv.info") by {
      assert ".nv.info"[1] != ".text"[1];
    }
  }

  // ---------- Padding a section ----------

  /** Padding never changes more than the padding bytes and, of text, the end of the buffer. */
  ghost predicate OnlyPadded(v: SectionValue, v': SectionValue) {
    && v' == v.(data := v'.data, padbytes := v'.padbytes)
    && if IsText(v.name) then v.data <= v'.data && v'.padbytes == v.padbytes else v'.data == v.data
  }

  /** NOPs were added, or nothing. */
  ghost predicate NopsAdded(d: seq<Byte>, d': seq<Byte>, archPad: seq<Byte>) {
    exists n: nat {:trigger Repeated(archPad, n)} :: d' == d + Repeated(archPad, n)
  }

  /** The padding of text is NOPs, of any other section zeros. */
  ghost predicate PaddedWith(v: SectionValue, v': SectionValue, archPad: seq<Byte>) {
    if IsText(v.name) then NopsAdded(v.data, v'.data, archPad)
    else forall i :: 0 <= i < |v'.padbytes| ==> v'.padbytes[i] == 0
  }

  lemma NotPadded(v: SectionValue, archPad: seq<Byte>)
    requires v.padbytes == []
    ensures PaddedWith(v, v, archPad)
  {
    assert v.data + Repeated(archPad, 0) == v.data;
  }

  lemma {:induction false} RepeatedSum(pad: seq<Byte>, m: nat, n: nat)
    ensures Repeated(pad, m) + Repeated(pad, n) == Repeated(pad, m + n)
  {
    if m == 0 {
      assert Repeated(pad, 0) + Repeated(pad, n) == Repeated(pad, n);
    } else {
      RepeatedSum(pad, m - 1, n);
      assert (pad + Repeated(pad, m - 1)) + Repeated(pad, n) == pad + (Repeated(pad, m - 1) + Repeated(pad, n));
    }
  }

  lemma PaddedAgain(u: SectionValue, v: SectionValue, w: SectionValue, archPad: seq<Byte>)
    requires u.name == v.name && PaddedWith(u, v, archPad) && PaddedWith(v, w, archPad)
    ensures PaddedWith(u, w, archPad)
  {
    if IsText(u.name) {
      var m: nat :| v.data == u.data + Repeated(archPad, m);
      var n: nat :| w.data == v.data + Repeated(archPad, n);
      RepeatedSum(archPad, m, n);
      assert w.data == u.data + Repeated(archPad, m + n);
    }
  }

  /** What padding a section to an alignment moves the file offset by. */
  function GapOf(v: SectionValue, fileOffset: nat, a: nat): nat {
    if v.nobits && !IsText(v.name) then 0 else AlignTo(fileOffset, a).1
  }

  /** The padding is not possible: text that would need a broken NOP. */
  predicate BreaksNop(v: SectionValue, gap: nat, archPad: seq<Byte>) {
    IsText(v.name) && (|archPad| == 0 || gap % |archPad| != 0)
  }

  /**
   Pads a section up to the alignment of its successor: text in its own buffer, other sections
   beside it, sections without file bytes in memory only. The file grows by what the file offset
   moves, except exactly for text without file bytes that is not aligned.
   */
  method UpdateSectionPadding(sec: CuAsmSection, fileOffset: nat, memOffset: nat, align: nat, archPad: seq<Byte>)
    returns (r: Result<(nat, nat), LayoutError>)
    requires sec.padbytes == []
    modifies sec`data, sec`pos, sec`padbytes
    ensures var v, a := old(sec.Value()), PaddingAlign(sec.name, sec.addralign, align);
            && (if BreaksNop(v, AlignTo(fileOffset, a).1, archPad) then r == Failure(InvalidPadding) else r.Success?)
            && (r.Success? ==>
                  && r.value.1 == AlignTo(memOffset, a).0
                  && r.value.0 == fileOffset + GapOf(v, fileOffset, a)
                  && (sec.Value().FileSize() == v.FileSize() + (r.value.0 - fileOffset) <==>
                      !IsText(v.name) || !v.nobits || AlignTo(fileOffset, a).1 == 0)
                  && (v.nobits ==> sec.Value().FileSize() == v.FileSize())
                  && (IsText(v.name) ==> |sec.data| == |v.data| + AlignTo(fileOffset, a).1)
                  && (v.nobits && !IsText(v.name) ==> |sec.padbytes| == r.value.1 - memOffset))
    ensures sec.pos == old(sec.pos)
    ensures OnlyPadded(old(sec.Value()), sec.Value()) && PaddedWith(old(sec.Value()), sec.Value(), archPad)
  {
    NotPadded(sec.Value(), archPad);
    if IsText(sec.name) {
      var a := Max(align, sec.addralign);
      var (newFileOffset, fpadsize) := AlignTo(fileOffset, a);
      var (newMemOffset, _) := AlignTo(memOffset, a);
      var pad := GenSectionPaddingBytes(sec.name, fpadsize, archPad);
      if pad.Failure? {
        return Failure(pad.error);
      }
      sec.EmitPadding(pad.value);
      return Success((newFileOffset, newMemOffset));
    }
    var (newMemOffset, mpadsize) := AlignTo(memOffset, align);
    if sec.nobits {
      sec.padbytes := ZeroBytes(mpadsize);
      return Success((fileOffset, newMemOffset));
    }
    var (newFileOffset, fpadsize) := AlignTo(fileOffset, align);
    sec.padbytes := ZeroBytes(fpadsize);
    return Success((newFileOffset, newMemOffset));
  }

  function At(secs: seq<CuAsmSection>, i: nat): CuAsmSection
    requires i < |secs|
  {
    secs[i]
  }

  /** No object is listed twice. */
  ghost predicate AllDifferent(secs: seq<CuAsmSection>) {
    forall i: nat, j: nat {:trigger At(secs, i), At(secs, j)} ::
      i < |secs| && j < |secs| && At(secs, i) == At(secs, j) ==> i == j
  }

  lemma DifferentFrom(secs: seq<CuAsmSection>, j: nat)
    requires AllDifferent(secs) && j < |secs|
    ensures forall k :: 0 <= k < |secs| && k != j ==> secs[k] != secs[j]
  {
    forall k | 0 <= k < |secs| && k != j
      ensures secs[k] != secs[j]
    {
      assert At(secs, k) == secs[k] && At(secs, j) == secs[j];
    }
  }

  ghost function Values(secs: seq<CuAsmSection>): (vals: seq<SectionValue>)
    reads secs
    ensures |vals| == |secs| && forall i :: 0 <= i < |secs| ==> vals[i] == secs[i].Value()
  {
    seq(|secs|, i requires 0 <= i < |secs| reads secs => secs[i].Value())
  }

  /** Contents are kept, up to padding at the end of text sections. */
  ghost predicate ContentsKept(before: seq<SectionValue>, vals: seq<SectionValue>) {
    && |before| == |vals|
    && forall k :: 0 <= k < |vals| ==>
         && vals[k].name == before[k].name && vals[k].nobits == before[k].nobits
         && vals[k].addralign == before[k].addralign
         && if IsText(vals[k].name) then before[k].data <= vals[k].data else vals[k].data == before[k].data
  }

  /** Whatever was padded was padded with NOPs or zeros. */
  ghost predicate PaddingIs(before: seq<SectionValue>, vals: seq<SectionValue>, archPad: seq<Byte>) {
    && |before| == |vals|
    && forall k {:trigger PaddedWith(before[k], vals[k], archPad)} :: 0 <= k < |vals| ==>
         vals[k].name == before[k].name && PaddedWith(before[k], vals[k], archPad)
  }

  lemma NothingPadded(vals: seq<SectionValue>, archPad: seq<Byte>)
    requires WellFormed(vals)
    ensures PaddingIs(vals, vals, archPad)
  {
    forall k | 0 <= k < |vals|
      ensures PaddedWith(vals[k], vals[k], archPad)
    {
      NotPadded(vals[k], archPad);
    }
  }

  lemma OneMorePadded(before: seq<SectionValue>, vals: seq<SectionValue>, j: nat, v: SectionValue, archPad: seq<Byte>)
    requires j < |vals| && PaddingIs(before, vals, archPad) && v.name == vals[j].name
    requires PaddedWith(vals[j], v, archPad)
    ensures PaddingIs(before, vals[j := v], archPad)
  {
    assert PaddedWith(before[j], vals[j], archPad);
    PaddedAgain(before[j], vals[j], v, archPad);
    var vals' := vals[j := v];
    forall k | 0 <= k < |vals'|
      ensures vals'[k].name == before[k].name && PaddedWith(before[k], vals'[k], archPad)
    {
      assert k != j ==> vals'[k] == vals[k] && PaddedWith(before[k], vals[k], archPad);
    }
  }

  lemma OnlyMoved(before: seq<SectionValue>, vals: seq<SectionValue>, i: nat, offset: nat, archPad: seq<Byte>)
    requires i < |vals| && PaddingIs(before, vals, archPad)
    ensures PaddingIs(before, vals[i := vals[i].(offset := offset)], archPad)
  {
    var vals' := vals[i := vals[i].(offset := offset)];
    forall k | 0 <= k < |vals'|
      ensures vals'[k].name == before[k].name && PaddedWith(before[k], vals'[k], archPad)
    {
      assert PaddedWith(before[k], vals[k], archPad);
    }
  }

  /** The first `i` sections have the offsets of the layout, which are ahead of what is written by the drift. */
  ghost predicate OffsetsFollow(before: seq<SectionValue>, vals: seq<SectionValue>, i: nat)
    requires |before| == |vals| && i <= |vals|
  {
    forall k {:trigger vals[k].offset} :: 0 <= k < i && before[k].name != "" ==>
      && vals[k].offset == StartOf(before, k)
      && vals[k].offset == FILE_HEADER + SumTo(Sizes(vals), k) + Drift(before, k + 1)
  }

  /** The sections from `i` on are as they were. */
  ghost predicate Untouched(before: seq<SectionValue>, vals: seq<SectionValue>, i: nat)
    requires |before| == |vals|
  {
    forall k :: i <= k < |vals| ==> vals[k] == before[k]
  }

  /** The first `i` sections lie as laid out, and the last of them is not padded yet. */
  ghost predicate Placed(before: seq<SectionValue>, vals: seq<SectionValue>, i: nat) {
    && WellFormed(before) && ContentsKept(before, vals) && i <= |vals|
    && EndOf(before, i) == FILE_HEADER + SumTo(Sizes(vals), i) + Drift(before, i)
    && OffsetsFollow(before, vals, i) && Untouched(before, vals, i)
    && (Prev(before, i) >= 0 ==> vals[Prev(before, i)].padbytes == [])
  }

  /** The first `i` sections lie as laid out, with the padding in front of section `i`. */
  ghost predicate Ready(before: seq<SectionValue>, vals: seq<SectionValue>, i: nat) {
    && WellFormed(before) && ContentsKept(before, vals) && i < |vals|
    && StartOf(before, i) == FILE_HEADER + SumTo(Sizes(vals), i) + Drift(before, i + 1)
    && OffsetsFollow(before, vals, i) && Untouched(before, vals, i)
  }

  /** `Placed`, stated so that it unfolds only where the drift at `i` is mentioned. */
  ghost predicate LaidOut(before: seq<SectionValue>, vals: seq<SectionValue>, i: nat) {
    i <= |before| && forall n: nat {:trigger Drift(before, n)} :: n == i ==> Placed(before, vals, n)
  }

  /** `Ready`, stated so that it unfolds only where `AfterMemoryText` is used. */
  ghost predicate HasRoom(before: seq<SectionValue>, vals: seq<SectionValue>, i: nat) {
    i < |before| && forall n: nat {:trigger AfterMemoryText(before, n)} :: n == i ==> Ready(before, vals, n)
  }

  lemma {:induction false} HasRoomReady(before: seq<SectionValue>, vals: seq<SectionValue>, i: nat)
    requires HasRoom(before, vals, i)
    ensures Ready(before, vals, i)
  {
    assert AfterMemoryText(before, i) || !AfterMemoryText(before, i);
  }

  lemma {:induction false} HasRoomKept(before: seq<SectionValue>, vals: seq<SectionValue>, i: nat)
    requires HasRoom(before, vals, i)
    ensures ContentsKept(before, vals) && vals[i] == before[i]
  {
    HasRoomReady(before, vals, i);
  }

  lemma PlacedStart(vals: seq<SectionValue>)
    requires WellFormed(vals)
    ensures LaidOut(vals, vals, 0)
  {
    assert Drift(vals, 0) == 0;
  }

  lemma {:induction false} LaidOutPlaced(before: seq<SectionValue>, vals: seq<SectionValue>, i: nat)
    requires LaidOut(before, vals, i)
    ensures Placed(before, vals, i) && |before| == |vals|
    ensures i < |vals| ==> vals[i] == before[i]
  {
    assert Drift(before, i) >= 0;
  }

  lemma {:induction false} LaidOutKept(before: seq<SectionValue>, vals: seq<SectionValue>, i: nat)
    requires LaidOut(before, vals, i)
    ensures ContentsKept(before, vals) && (i < |vals| ==> vals[i] == before[i])
  {
    LaidOutPlaced(before, vals, i);
  }

  /** The null section moves nothing; any other is the last one afterwards. */
  lemma {:induction false} PrevStep(vals: seq<SectionValue>, i: nat)
    requires i < |vals|
    ensures vals[i].name == "" ==> EndOf(vals, i + 1) == EndOf(vals, i) && Prev(vals, i + 1) == Prev(vals, i)
    ensures vals[i].name != "" ==> Prev(vals, i + 1) == i
  {
  }

  lemma PaddedSums(vals: seq<SectionValue>, j: nat, v: SectionValue, d: nat, k: nat)
    requires j < |vals| && v.FileSize() == vals[j].FileSize() + d && k <= |vals|
    ensures SumTo(Sizes(vals[j := v]), k) == if k > j then SumTo(Sizes(vals), k) + d else SumTo(Sizes(vals), k)
  {
    SumUpdate(Sizes(vals), Sizes(vals[j := v]), j, d, k);
  }

  /** Sections up to the padded one stay where they are. */
  lemma {:induction false} PaddedOffsets(before: seq<SectionValue>, vals: seq<SectionValue>, i: nat, j: nat,
                                         v: SectionValue, d: nat)
    requires |before| == |vals| && i <= |vals| && OffsetsFollow(before, vals, i) && Prev(before, i) == j
    requires OnlyPadded(vals[j], v) && v.FileSize() == vals[j].FileSize() + d
    ensures OffsetsFollow(before, vals[j := v], i)
  {
    forall k | 0 <= k < i && before[k].name != ""
      ensures SumTo(Sizes(vals[j := v]), k) == SumTo(Sizes(vals), k) && vals[j := v][k].offset == vals[k].offset
    {
      PaddedSums(vals, j, v, d, k);
    }
  }

  /** Where the next section starts once the one before is padded. */
  lemma {:induction false} PaddedStart(before: seq<SectionValue>, vals: seq<SectionValue>, i: nat, j: nat,
                                       v: SectionValue)
    requires |before| == |vals| && i < |vals| && Prev(before, i) == j
    requires EndOf(before, i) == FILE_HEADER + SumTo(Sizes(vals), i) + Drift(before, i)
    requires v.FileSize() ==
             vals[j].FileSize() + if AfterMemoryText(before, i) then 0 else Gap(before, i, EndOf(before, i))
    ensures StartOf(before, i) == FILE_HEADER + SumTo(Sizes(vals[j := v]), i) + Drift(before, i + 1)
  {
    PaddedSums(vals, j, v, v.FileSize() - vals[j].FileSize(), i);
  }

  lemma {:induction false} PaddedContents(before: seq<SectionValue>, vals: seq<SectionValue>, j: nat, v: SectionValue)
    requires j < |vals| && ContentsKept(before, vals) && OnlyPadded(vals[j], v)
    ensures ContentsKept(before, vals[j := v])
  {
  }

  lemma {:induction false} PaddedFront(before: seq<SectionValue>, vals: seq<SectionValue>, i: nat, j: nat,
                                       v: SectionValue)
    requires j < i < |vals| == |before| && Untouched(before, vals, i)
    ensures Untouched(before, vals[j := v], i)
  {
  }

  /** Padding the section placed last moves none of the placed sections. */
  lemma {:induction false} PaddedReady(before: seq<SectionValue>, vals: seq<SectionValue>, i: nat, j: nat,
                                       v: SectionValue)
    requires Placed(before, vals, i) && i < |vals| && before[i].name != "" && Prev(before, i) == j
    requires OnlyPadded(vals[j], v)
    requires v.FileSize() ==
             vals[j].FileSize() + if AfterMemoryText(before, i) then 0 else Gap(before, i, EndOf(before, i))
    ensures HasRoom(before, vals[j := v], i)
  {
    PaddedStart(before, vals, i, j, v);
    PaddedOffsets(before, vals, i, j, v, v.FileSize() - vals[j].FileSize());
    PaddedContents(before, vals, j, v);
    PaddedFront(before, vals, i, j, v);
    assert Ready(before, vals[j := v], i);
  }

  lemma {:induction false} NothingToPad(before: seq<SectionValue>, vals: seq<SectionValue>, i: nat, archPad: seq<Byte>)
    requires LaidOut(before, vals, i) && i < |before| && Prev(before, i) < 0
    ensures HasRoom(before, vals, i) && GapFits(before, archPad, i) && StartOf(before, i) == EndOf(before, i)
  {
    LaidOutPlaced(before, vals, i);
    assert Ready(before, vals, i);
  }

  lemma {:induction false} PlacedOffsets(before: seq<SectionValue>, vals: seq<SectionValue>, vals': seq<SectionValue>,
                                         i: nat)
    requires |before| == |vals| && i < |vals| && OffsetsFollow(before, vals, i)
    requires StartOf(before, i) == FILE_HEADER + SumTo(Sizes(vals), i) + Drift(before, i + 1)
    requires vals' == vals[i := vals[i].(offset := StartOf(before, i))]
    ensures Sizes(vals') == Sizes(vals) && OffsetsFollow(before, vals', i + 1)
  {
    assert Sizes(vals') == Sizes(vals);
    forall k | 0 <= k < i + 1 && before[k].name != ""
      ensures vals'[k].offset == StartOf(before, k) == FILE_HEADER + SumTo(Sizes(vals), k) + Drift(before, k + 1)
    {
      assert k < i ==> vals'[k].offset == vals[k].offset;
    }
  }

  lemma {:induction false} EndBehind(before: seq<SectionValue>, sizes: seq<nat>, i: nat)
    requires i < |before| == |sizes| && before[i].name != "" && before[i].padbytes == []
    requires sizes[i] == before[i].FileSize()
    requires StartOf(before, i) == FILE_HEADER + SumTo(sizes, i) + Drift(before, i + 1)
    ensures EndOf(before, i + 1) == FILE_HEADER + SumTo(sizes, i + 1) + Drift(before, i + 1)
  {
  }

  /** A section placed at the current offset. */
  lemma {:induction false} SectionPlaced(before: seq<SectionValue>, vals: seq<SectionValue>, vals': seq<SectionValue>,
                                         i: nat)
    requires HasRoom(before, vals, i) && before[i].name != "" && |vals| == |before|
    requires vals' == vals[i := vals[i].(offset := StartOf(before, i))]
    ensures LaidOut(before, vals', i + 1)
  {
    HasRoomReady(before, vals, i);
    PlacedOffsets(before, vals, vals', i);
    EndBehind(before, Sizes(vals), i);
    assert Placed(before, vals', i + 1);
  }

  lemma {:induction false} NullPlaced(before: seq<SectionValue>, vals: seq<SectionValue>, i: nat)
    requires LaidOut(before, vals, i) && i < |vals| == |before| && before[i].name == ""
    ensures LaidOut(before, vals, i + 1)
  {
    LaidOutPlaced(before, vals, i);
  }

  /** Pads section `j`, the one placed last. */
  method PadPrevious(ghost secs: seq<CuAsmSection>, ghost j: nat, prev: CuAsmSection, fileOffset: nat, memOffset: nat,
                     align: nat, archPad: seq<Byte>) returns (r: Result<(nat, nat), LayoutError>)
    requires AllDifferent(secs) && j < |secs| && prev == secs[j] && prev.padbytes == []
    modifies prev`data, prev`pos, prev`padbytes
    ensures OnlyPadded(old(prev.Value()), prev.Value()) && PaddedWith(old(prev.Value()), prev.Value(), archPad)
    ensures Values(secs) == old(Values(secs))[j := prev.Value()]
    ensures var v, a := old(prev.Value()), PaddingAlign(prev.name, prev.addralign, align);
            && (if BreaksNop(v, AlignTo(fileOffset, a).1, archPad) then r == Failure(InvalidPadding) else r.Success?)
            && (r.Success? ==>
                  && r.value.0 == fileOffset + GapOf(v, fileOffset, a)
                  && prev.Value().FileSize() == v.FileSize() + if v.nobits then 0 else GapOf(v, fileOffset, a))
  {
    DifferentFrom(secs, j);
    r := UpdateSectionPadding(prev, fileOffset, memOffset, align, archPad);
    assert Values(secs) == old(Values(secs))[j := prev.Value()];
  }

  /** Records where a section lies. */
  method Place(ghost secs: seq<CuAsmSection>, ghost i: nat, sec: CuAsmSection, fileOffset: nat,
               ghost before: seq<SectionValue>, ghost archPad: seq<Byte>)
    requires AllDifferent(secs) && |before| == |secs| && HasRoom(before, Values(secs), i)
    requires PaddingIs(before, Values(secs), archPad)
    requires sec == secs[i] && sec.name != ""
    requires fileOffset == StartOf(before, i)
    modifies sec`size, sec`offset
    ensures LaidOut(before, Values(secs), i + 1) && sec.size == |before[i].data|
    ensures PaddingIs(before, Values(secs), archPad)
  {
    DifferentFrom(secs, i);
    ghost var vals := Values(secs);
    HasRoomKept(before, vals, i);
    sec.size := |sec.data|;
    sec.offset := fileOffset;
    ghost var next := vals[i := vals[i].(offset := fileOffset)];
    assert Values(secs) == next;
    SectionPlaced(before, vals, next, i);
    OnlyMoved(before, vals, i, fileOffset, archPad);
  }

  /** The first `i` sections are laid out, `prev` is the last of them, and the file offset is behind them. */
  ghost predicate Underway(before: seq<SectionValue>, secs: seq<CuAsmSection>, i: nat, prev: CuAsmSection?,
                           fileOffset: nat)
    requires |before| == |secs|
    reads secs
  {
    && i <= |secs| && LaidOut(before, Values(secs), i) && fileOffset == EndOf(before, i)
    && prev == if Prev(before, i) >= 0 then secs[Prev(before, i)] else null
  }

  /** What padding `prev` in front of section `i` comes to. */
  lemma {:induction false} PaddedInFront(before: seq<SectionValue>, vals: seq<SectionValue>, i: nat, j: nat,
                                         archPad: seq<Byte>)
    requires LaidOut(before, vals, i) && i < |vals| == |before| && Prev(before, i) == j && before[i].name != ""
    ensures var v, a, end := vals[j], AlignBetween(before, j, i), EndOf(before, i);
            && v.padbytes == [] && v.name == before[j].name && v.nobits == before[j].nobits
            && v.addralign == before[j].addralign
            && GapOf(v, end, a) == Gap(before, i, end)
            && (GapFits(before, archPad, i) <==> !BreaksNop(v, AlignTo(end, a).1, archPad))
            && (AfterMemoryText(before, i) <==> v.nobits && IsText(v.name))
  {
    LaidOutPlaced(before, vals, i);
  }

  /** Padding the section placed last makes room for the next one. */
  lemma {:induction false} RoomMade(before: seq<SectionValue>, vals: seq<SectionValue>, i: nat, j: nat, v: SectionValue)
    requires LaidOut(before, vals, i) && i < |vals| == |before| && Prev(before, i) == j && before[i].name != ""
    requires OnlyPadded(vals[j], v)
    requires v.FileSize() == vals[j].FileSize() + if vals[j].nobits then 0 else Gap(before, i, EndOf(before, i))
    ensures HasRoom(before, vals[j := v], i)
  {
    LaidOutPlaced(before, vals, i);
    PaddedReady(before, vals, i, j, v);
  }

  lemma {:induction false} PaddedKept(before: seq<SectionValue>, vals: seq<SectionValue>, i: nat, j: nat,
                                      v: SectionValue)
    requires LaidOut(before, vals, i) && j < |vals| == |before| && OnlyPadded(vals[j], v)
    ensures ContentsKept(before, vals[j := v])
  {
    LaidOutKept(before, vals, i);
  }

  /** Pads the section before section `i`, if there is one. */
  method MakeRoom(ghost secs: seq<CuAsmSection>, ghost i: nat, prev: CuAsmSection?, sec: CuAsmSection,
                  fileOffset: nat, memOffset: nat, archPad: seq<Byte>, ghost before: seq<SectionValue>)
    returns (r: Result<(nat, nat), LayoutError>)
    requires AllDifferent(secs) && |before| == |secs| && i < |secs| && sec == secs[i] && sec.name != ""
    requires Underway(before, secs, i, prev, fileOffset) && PaddingIs(before, Values(secs), archPad)
    modifies secs
    ensures ContentsKept(before, Values(secs)) && PaddingIs(before, Values(secs), archPad)
    ensures r.Success? <==> GapFits(before, archPad, i)
    ensures r.Failure? ==> r.error == InvalidPadding
    ensures r.Success? ==> HasRoom(before, Values(secs), i) && r.value.0 == StartOf(before, i)
  {
    ghost var vals := Values(secs);
    LaidOutKept(before, vals, i);
    assert vals[i] == sec.Value();
    if prev == null {
      NothingToPad(before, vals, i, archPad);
      return Success((fileOffset, memOffset));
    }
    ghost var j: nat := Prev(before, i);
    assert vals[j] == prev.Value();
    PaddedInFront(before, vals, i, j, archPad);
    r := PadPrevious(secs, j, prev, fileOffset, memOffset, AlignBefore(prev.name, sec.nobits, sec.addralign), archPad);
    PaddedKept(before, vals, i, j, prev.Value());
    OneMorePadded(before, vals, j, prev.Value(), archPad);
    if r.Success? {
      RoomMade(before, vals, i, j, prev.Value());
    }
  }

  /** Lays out section `i`; the null section is left alone. */
  method PlaceNext(ghost secs: seq<CuAsmSection>, ghost i: nat, prev: CuAsmSection?, sec: CuAsmSection,
                   fileOffset: nat, memOffset: nat, archPad: seq<Byte>, ghost before: seq<SectionValue>)
    returns (r: Result<(nat, nat), LayoutError>, last: CuAsmSection?)
    requires AllDifferent(secs) && |before| == |secs| && i < |secs| && sec == secs[i]
    requires Underway(before, secs, i, prev, fileOffset) && PaddingIs(before, Values(secs), archPad)
    modifies secs
    ensures ContentsKept(before, Values(secs)) && PaddingIs(before, Values(secs), archPad)
    ensures r.Success? <==> before[i].name == "" || GapFits(before, archPad, i)
    ensures r.Failure? ==> r.error == InvalidPadding
    ensures r.Success? ==> Underway(before, secs, i + 1, last, r.value.0)
  {
    last := prev;
    LaidOutKept(before, Values(secs), i);
    PrevStep(before, i);
    assert Values(secs)[i] == sec.Value() == before[i];
    if sec.name == "" {
      NullPlaced(before, Values(secs), i);
      return Success((fileOffset, memOffset)), last;
    }
    r := PlaceNamed(secs, i, prev, sec, fileOffset, memOffset, archPad, before);
    LastIs(before, secs, i, sec);
    if r.Success? {
      last := sec;
    }
  }

  lemma {:induction false} LastIs(before: seq<SectionValue>, secs: seq<CuAsmSection>, i: nat, sec: CuAsmSection)
    requires i < |secs| == |before| && sec == secs[i] && before[i].name != ""
    ensures sec == if Prev(before, i + 1) >= 0 then secs[Prev(before, i + 1)] else null
  {
    PrevStep(before, i);
  }

  method PlaceNamed(ghost secs: seq<CuAsmSection>, ghost i: nat, prev: CuAsmSection?, sec: CuAsmSection,
                    fileOffset: nat, memOffset: nat, archPad: seq<Byte>, ghost before: seq<SectionValue>)
    returns (r: Result<(nat, nat), LayoutError>)
    requires AllDifferent(secs) && |before| == |secs| && i < |secs| && sec == secs[i] &&
             sec.name == before[i].name != ""
    requires Underway(before, secs, i, prev, fileOffset) && PaddingIs(before, Values(secs), archPad)
    modifies secs
    ensures ContentsKept(before, Values(secs)) && PaddingIs(before, Values(secs), archPad)
    ensures r.Success? <==> GapFits(before, archPad, i)
    ensures r.Failure? ==> r.error == InvalidPadding
    ensures r.Success? ==> LaidOut(before, Values(secs), i + 1) && r.value.0 == EndOf(before, i + 1)
  {
    var room := MakeRoom(secs, i, prev, sec, fileOffset, memOffset, archPad, before);
    if room.Failure? {
      return room;
    }
    HasRoomKept(before, Values(secs), i);
    assert Values(secs)[i] == sec.Value() == before[i];
    Place(secs, i, sec, room.value.0, before, archPad);
    LaidOutKept(before, Values(secs), i + 1);
    r := Success((room.value.0 + if sec.nobits then 0 else sec.size, room.value.1 + sec.size));
  }

  /**
   Text in front of the first `i` sections could be padded; stated so that it unfolds only where `GapFits` is
   used.
   */
  ghost predicate FitSoFar(vals: seq<SectionValue>, archPad: seq<Byte>, i: nat)
    requires i <= |vals|
  {
    forall k: nat {:trigger GapFits(vals, archPad, k)} :: k < i ==> GapFits(vals, archPad, k)
  }

  lemma {:induction false} FitStep(vals: seq<SectionValue>, archPad: seq<Byte>, i: nat, fits: bool)
    requires i < |vals| && FitSoFar(vals, archPad, i) && (vals[i].name != "" ==> (fits <==> GapFits(vals, archPad, i)))
    ensures fits || vals[i].name == "" ==> FitSoFar(vals, archPad, i + 1)
    ensures !fits && vals[i].name != "" ==> !GapsFit(vals, archPad)
  {
  }

  /** Lays out all sections but the null section, one after the other. */
  method PlaceSections(secs: seq<CuAsmSection>, archPad: seq<Byte>) returns (r: Result<nat, LayoutError>)
    requires AllDifferent(secs) && WellFormed(Values(secs))
    modifies secs
    ensures ContentsKept(old(Values(secs)), Values(secs)) && PaddingIs(old(Values(secs)), Values(secs), archPad)
    ensures r.Success? <==> GapsFit(old(Values(secs)), archPad)
    ensures r.Failure? ==> r.error == InvalidPadding
    ensures r.Success? ==>
              LaidOut(old(Values(secs)), Values(secs), |secs|) && r.value == EndOf(old(Values(secs)), |secs|)
  {
    ghost var before := Values(secs);
    var fileOffset: nat, memOffset: nat := FILE_HEADER, FILE_HEADER;
    var prev: CuAsmSection? := null;
    PlacedStart(before);
    NothingPadded(before, archPad);
    for i: nat := 0 to |secs|
      invariant Underway(before, secs, i, prev, fileOffset) && FitSoFar(before, archPad, i)
      invariant PaddingIs(before, Values(secs), archPad)
    {
      var next;
      next, prev := PlaceNext(secs, i, prev, secs[i], fileOffset, memOffset, archPad, before);
      FitStep(before, archPad, i, next.Success?);
      if next.Failure? {
        return Failure(next.error);
      }
      fileOffset, memOffset := next.value.0, next.value.1;
    }
    LaidOutKept(before, Values(secs), |secs|);
    r := Success(fileOffset);
  }

  /** A laid-out file: where the section header table and the program headers go. */
  datatype Layout = Layout(padSizeBeforeSecHeader: nat, shoff: nat, phoff: nat)

  /**
   The offsets in a laid-out file: the first section lies behind the file header, every other one at the
   first offset behind its neighbour that is aligned as asked for, then follow the section headers at a
   multiple of 8, 64 bytes each, and the program headers.
   */
  ghost predicate LiesInOrder(before: seq<SectionValue>, vals: seq<SectionValue>, l: Layout) {
    && |before| == |vals|
    && (forall i {:trigger vals[i].offset} ::
          0 <= i < |vals| && vals[i].name != "" && (forall k :: 0 <= k < i ==> vals[k].name == "") ==>
            vals[i].offset == 64)
    && (forall j: nat, i: nat {:trigger Neighbours(before, j, i)} :: j < i < |vals| && Neighbours(before, j, i) ==>
          FirstAligned(vals[i].offset, vals[j].offset + FileLength(before[j]), AskedFor(before[j], before[i])))
    && (forall i {:trigger vals[i].offset} ::
          0 <= i < |vals| && vals[i].name != "" && (forall k :: i < k < |vals| ==> vals[k].name == "") ==>
            FirstAligned(l.shoff, vals[i].offset + FileLength(before[i]), 8))
    && l.phoff == l.shoff + 64 * |vals|
  }

  lemma {:induction false} InOrder(before: seq<SectionValue>, vals: seq<SectionValue>, l: Layout)
    requires ContentsKept(before, vals)
    requires forall k {:trigger vals[k].offset} :: 0 <= k < |vals| && before[k].name != "" ==>
               vals[k].offset == StartOf(before, k)
    requires l.shoff == AlignTo(EndOf(before, |before|), 8).0 && l.phoff == l.shoff + |vals| * SECTION_HEADER
    ensures LiesInOrder(before, vals, l)
  {
    AlignToIsFirst(EndOf(before, |before|), 8);
    forall i: nat | i < |vals| && vals[i].name != "" && forall k :: 0 <= k < i ==> vals[k].name == ""
      ensures vals[i].offset == 64
    {
      StartsBehindHeader(before, i);
    }
    forall j: nat, i: nat {:trigger Neighbours(before, j, i)} | j < i < |vals| && Neighbours(before, j, i)
      ensures FirstAligned(vals[i].offset, vals[j].offset + FileLength(before[j]), AskedFor(before[j], before[i]))
    {
      StartMeaning(before, j, i);
    }
    EndInOrder(before, vals);
  }

  lemma {:induction false} EndInOrder(before: seq<SectionValue>, vals: seq<SectionValue>)
    requires ContentsKept(before, vals)
    requires forall k {:trigger vals[k].offset} :: 0 <= k < |vals| && before[k].name != "" ==>
               vals[k].offset == StartOf(before, k)
    ensures forall i {:trigger vals[i].offset} ::
              0 <= i < |vals| && vals[i].name != "" && (forall k :: i < k < |vals| ==> vals[k].name == "") ==>
                EndOf(before, |before|) == vals[i].offset + FileLength(before[i])
  {
    forall i: nat | i < |vals| && vals[i].name != "" && forall k :: i < k < |vals| ==> vals[k].name == ""
      ensures EndOf(before, |before|) == vals[i].offset + FileLength(before[i])
    {
      EndMeaning(before, i);
    }
  }

  /** What the writer needs of the layout. */
  ghost predicate IsLayout(vals: seq<SectionValue>, l: Layout) {
    && OffsetsAgree(vals, |vals|)
    && l.shoff == FILE_HEADER + SumTo(Sizes(vals), |vals|) + l.padSizeBeforeSecHeader
    && l.padSizeBeforeSecHeader < 8 && (exists q: nat :: l.shoff == q * 8)
    && l.phoff == l.shoff + |vals| * SECTION_HEADER
  }

  /** Laid-out sections agree with the writer exactly if nothing drifts. */
  lemma {:induction false} PlacedAgrees(before: seq<SectionValue>, vals: seq<SectionValue>)
    requires Placed(before, vals, |vals|)
    ensures OffsetsAgree(vals, |vals|) <==> Drift(before, |before|) == 0
  {
    if Drift(before, |before|) == 0 {
      forall k | 0 <= k < |vals| && vals[k].name != ""
        ensures vals[k].offset == FILE_HEADER + SumTo(Sizes(vals), k)
      {
        DriftGrows(before, k + 1, |before|);
      }
    } else {
      var k := DriftSource(before, |before|);
      assert vals[k].offset == FILE_HEADER + SumTo(Sizes(vals), k) + Drift(before, k + 1);
    }
  }

  /** A section that is placed with drift. */
  lemma {:induction false} DriftSource(vals: seq<SectionValue>, n: nat) returns (k: nat)
    requires n <= |vals| && Drift(vals, n) > 0
    ensures k < n && vals[k].name != "" && Drift(vals, k + 1) > 0
  {
    if AfterMemoryText(vals, n - 1) {
      k := n - 1;
    } else {
      k := DriftSource(vals, n - 1);
    }
  }

  /** Records the sizes of the sections, padding in their own buffers included. */
  method RecordSizes(secs: seq<CuAsmSection>)
    modifies secs`size
    ensures Values(secs) == old(Values(secs))
    ensures forall i :: 0 <= i < |secs| && secs[i].name != "" ==> secs[i].size == |secs[i].data|
  {
    for i := 0 to |secs|
      invariant Values(secs) == old(Values(secs))
      invariant forall k :: 0 <= k < i && secs[k].name != "" ==> secs[k].size == |secs[k].data|
    {
      if secs[i].name != "" {
        secs[i].size := |secs[i].data|;
      }
    }
  }

  /** What becomes of sections that are laid out. */
  lemma {:induction false} LayoutMeaning(before: seq<SectionValue>, vals: seq<SectionValue>, l: Layout)
    requires LaidOut(before, vals, |before|)
    requires AlignTo(EndOf(before, |before|), 8) == (l.shoff, l.padSizeBeforeSecHeader)
    requires l.phoff == l.shoff + |before| * SECTION_HEADER
    ensures |vals| == |before|
    ensures forall i :: 0 <= i < |vals| && before[i].name != "" ==> vals[i].offset == StartOf(before, i)
    ensures IsLayout(vals, l) <==> MemoryTextAligned(before)
    ensures LiesInOrder(before, vals, l)
  {
    LaidOutPlaced(before, vals, |before|);
    DriftIffUnaligned(before, |before|);
    PlacedAgrees(before, vals);
    InOrder(before, vals, l);
  }

  /**
   Lays out sections, section header table and program headers. It succeeds exactly if text can be
   padded with whole NOPs. Section contents are kept, up to NOP padding at the end of text sections.
   The layout is what the writer needs exactly if every memory-only text section with a successor
   starts at an offset that needs no padding.
   */
  method LayoutSections(secs: seq<CuAsmSection>, archPad: seq<Byte>) returns (r: Result<Layout, LayoutError>)
    requires AllDifferent(secs) && WellFormed(Values(secs))
    modifies secs
    ensures ContentsKept(old(Values(secs)), Values(secs)) && PaddingIs(old(Values(secs)), Values(secs), archPad)
    ensures r.Success? <==> GapsFit(old(Values(secs)), archPad)
    ensures r.Failure? ==> r.error == InvalidPadding
    ensures r.Success? ==> forall i :: 0 <= i < |secs| && old(Values(secs))[i].name != "" ==>
              Values(secs)[i].offset == StartOf(old(Values(secs)), i)
    ensures r.Success? ==> (IsLayout(Values(secs), r.value) <==> MemoryTextAligned(old(Values(secs))))
    ensures r.Success? ==> LiesInOrder(old(Values(secs)), Values(secs), r.value)
    ensures r.Success? ==> forall i :: 0 <= i < |secs| && secs[i].name != "" ==> secs[i].size == |secs[i].data|
  {
    ghost var before := Values(secs);
    var placed := PlaceSections(secs, archPad);
    if placed.Failure? {
      return Failure(placed.error);
    }
    var (shoff, padBeforeHeader) := AlignTo(placed.value, 8);
    var l := Layout(padBeforeHeader, shoff, shoff + |secs| * SECTION_HEADER);
    LayoutMeaning(before, Values(secs), l);
    RecordSizes(secs);
    r := Success(l);
  }

  // ---------- Writing ----------

  /** `out` holds `bs` at position `p`. */
  predicate HoldsAt(out: seq<Byte>, p: nat, bs: seq<Byte>) {
    p + |bs| <= |out| && forall i :: 0 <= i < |bs| ==> out[p + i] == bs[i]
  }

  /** `out` goes on where `part` ends. */
  predicate Extends(out: seq<Byte>, part: seq<Byte>) {
    |part| <= |out| && forall i :: 0 <= i < |part| ==> out[i] == part[i]
  }

  /** What the file held it still holds when it was extended. */
  lemma StillHolds(part: seq<Byte>, out: seq<Byte>, p: nat, bs: seq<Byte>)
    requires Extends(out, part) && HoldsAt(part, p, bs)
    ensures HoldsAt(out, p, bs)
  {
  }

  lemma Appended(part: seq<Byte>, bs: seq<Byte>, out: seq<Byte>)
    requires out == part + bs
    ensures Extends(out, part) && HoldsAt(out, |part|, bs)
  {
  }

  lemma ExtendsTransitive(a: seq<Byte>, b: seq<Byte>, c: seq<Byte>)
    requires Extends(b, a) && Extends(c, b)
    ensures Extends(c, a)
  {
  }

  lemma HoldsFront(out: seq<Byte>, p: nat, bs: seq<Byte>, front: seq<Byte>)
    requires HoldsAt(out, p, bs) && Extends(bs, front)
    ensures HoldsAt(out, p, front)
  {
  }

  /** Writes equally long blocks. */
  method WriteBlocks(out0: seq<Byte>, blocks: seq<seq<Byte>>, size: nat) returns (out: seq<Byte>)
    requires forall i :: 0 <= i < |blocks| ==> |blocks[i]| == size
    ensures Extends(out, out0) && |out| == |out0| + |blocks| * size
    ensures forall i :: 0 <= i < |blocks| ==> HoldsAt(out, |out0| + i * size, blocks[i])
  {
    out := out0;
    for i := 0 to |blocks|
      invariant Extends(out, out0) && |out| == |out0| + i * size
      invariant forall k :: 0 <= k < i ==> HoldsAt(out, |out0| + k * size, blocks[k])
    {
      var next := out + blocks[i];
      Appended(out, blocks[i], next);
      ExtendsTransitive(out0, out, next);
      forall k | 0 <= k < i
        ensures HoldsAt(next, |out0| + k * size, blocks[k])
      {
        StillHolds(out, next, |out0| + k * size, blocks[k]);
      }
      out := next;
    }
  }

  /** The first `k` sections follow each other from `start` on. */
  ghost predicate HoldsSections(out: seq<Byte>, start: nat, vals: seq<SectionValue>, k: nat)
    requires k <= |vals|
  {
    forall i {:trigger vals[i].FileBytes()} :: 0 <= i < k ==>
      HoldsAt(out, start + SumTo(Sizes(vals), i), vals[i].FileBytes())
  }

  lemma {:induction false} AppendSection(out: seq<Byte>, out': seq<Byte>, start: nat, vals: seq<SectionValue>, k: nat)
    requires k < |vals| && |out| == start + SumTo(Sizes(vals), k) && HoldsSections(out, start, vals, k)
    requires |out'| == |out| + |vals[k].FileBytes()| && Extends(out', out) && HoldsAt(out', |out|, vals[k].FileBytes())
    ensures HoldsSections(out', start, vals, k + 1) && |out'| == start + SumTo(Sizes(vals), k + 1)
  {
    forall i {:trigger vals[i].FileBytes()} | 0 <= i < k + 1
      ensures HoldsAt(out', start + SumTo(Sizes(vals), i), vals[i].FileBytes())
    {
      SectionStillHeld(out, out', start, vals, k, i);
    }
  }

  lemma {:induction false} SectionStillHeld(out: seq<Byte>, out': seq<Byte>, start: nat, vals: seq<SectionValue>,
                                            k: nat, i: nat)
    requires i <= k < |vals| && |out| == start + SumTo(Sizes(vals), k) && HoldsSections(out, start, vals, k)
    requires Extends(out', out) && HoldsAt(out', |out|, vals[k].FileBytes())
    ensures HoldsAt(out', start + SumTo(Sizes(vals), i), vals[i].FileBytes())
  {
    if i < k {
      StillHolds(out, out', start + SumTo(Sizes(vals), i), vals[i].FileBytes());
    }
  }

  /** Writes one section's data and padding. */
  method WritePaddedData(out0: seq<Byte>, sec: CuAsmSection) returns (out: seq<Byte>)
    ensures |out| == |out0| + |sec.Value().FileBytes()|
    ensures Extends(out, out0) && HoldsAt(out, |out0|, sec.Value().FileBytes())
  {
    if sec.nobits {
      return out0;
    }
    out := out0 + (sec.data + sec.padbytes);
    Appended(out0, sec.data + sec.padbytes, out);
  }

  /** The first `k` sections were written behind `out0`; stated so that it unfolds only where `SumTo` is used. */
  ghost predicate Written(out0: seq<Byte>, out: seq<Byte>, vals: seq<SectionValue>, k: nat) {
    k <= |vals| && forall n: nat {:trigger SumTo(Sizes(vals), n)} :: n == k ==>
      Extends(out, out0) && |out| == |out0| + SumTo(Sizes(vals), n) && HoldsSections(out, |out0|, vals, n)
  }

  lemma WriteStart(out0: seq<Byte>, vals: seq<SectionValue>)
    ensures Written(out0, out0, vals, 0)
  {
    assert SumTo(Sizes(vals), 0) == 0;
  }

  lemma {:induction false} WriteDone(out0: seq<Byte>, out: seq<Byte>, vals: seq<SectionValue>)
    requires Written(out0, out, vals, |vals|)
    ensures Extends(out, out0) && |out| == |out0| + SumTo(Sizes(vals), |vals|)
    ensures HoldsSections(out, |out0|, vals, |vals|)
  {
    assert SumTo(Sizes(vals), |vals|) >= 0;
  }

  lemma {:induction false} WriteStep(out0: seq<Byte>, out: seq<Byte>, out': seq<Byte>, vals: seq<SectionValue>, k: nat)
    requires k < |vals| && Written(out0, out, vals, k)
    requires |out'| == |out| + |vals[k].FileBytes()| && Extends(out', out) && HoldsAt(out', |out|, vals[k].FileBytes())
    ensures Written(out0, out', vals, k + 1)
  {
    assert SumTo(Sizes(vals), k) >= 0;
    AppendSection(out, out', |out0|, vals, k);
    ExtendsTransitive(out0, out, out');
  }

  /** Writes the sections' data and padding. */
  method WriteSections(out0: seq<Byte>, secs: seq<CuAsmSection>) returns (out: seq<Byte>)
    ensures Extends(out, out0) && |out| == |out0| + SumTo(Sizes(Values(secs)), |secs|)
    ensures HoldsSections(out, |out0|, Values(secs), |secs|)
  {
    ghost var vals := Values(secs);
    out := out0;
    WriteStart(out0, vals);
    for i: nat := 0 to |secs|
      invariant Written(out0, out, vals, i)
    {
      var next := WritePaddedData(out, secs[i]);
      WriteStep(out0, out, next, vals, i);
      out := next;
    }
    WriteDone(out0, out, vals);
  }

  lemma BlocksHeld(part: seq<Byte>, out: seq<Byte>, start: nat, blocks: seq<seq<Byte>>, size: nat)
    requires Extends(out, part) && forall i :: 0 <= i < |blocks| ==> HoldsAt(part, start + i * size, blocks[i])
    ensures forall i :: 0 <= i < |blocks| ==> HoldsAt(out, start + i * size, blocks[i])
  {
    forall i | 0 <= i < |blocks|
      ensures HoldsAt(out, start + i * size, blocks[i])
    {
      StillHolds(part, out, start + i * size, blocks[i]);
    }
  }

  /** The padded section data, then the section headers, then the program headers. */
  method WriteTables(body: seq<Byte>, sectionHeaders: seq<seq<Byte>>, segmentHeaders: seq<seq<Byte>>, l: Layout)
    returns (out: seq<Byte>)
    requires l.shoff == |body| + l.padSizeBeforeSecHeader && l.phoff == l.shoff + |sectionHeaders| * SECTION_HEADER
    requires forall i :: 0 <= i < |sectionHeaders| ==> |sectionHeaders[i]| == SECTION_HEADER
    requires forall i :: 0 <= i < |segmentHeaders| ==> |segmentHeaders[i]| == SEGMENT_HEADER
    ensures Extends(out, body) && |out| == l.phoff + |segmentHeaders| * SEGMENT_HEADER
    ensures forall i :: 0 <= i < |sectionHeaders| ==> HoldsAt(out, l.shoff + i * SECTION_HEADER, sectionHeaders[i])
    ensures forall i :: 0 <= i < |segmentHeaders| ==> HoldsAt(out, l.phoff + i * SEGMENT_HEADER, segmentHeaders[i])
  {
    var padded := body + ZeroBytes(l.padSizeBeforeSecHeader);
    Appended(body, ZeroBytes(l.padSizeBeforeSecHeader), padded);
    var withHeaders := WriteBlocks(padded, sectionHeaders, SECTION_HEADER);
    out := WriteBlocks(withHeaders, segmentHeaders, SEGMENT_HEADER);
    BlocksHeld(withHeaders, out, l.shoff, sectionHeaders, SECTION_HEADER);
    ExtendsTransitive(body, padded, withHeaders);
    ExtendsTransitive(body, withHeaders, out);
  }

  /** In a file that holds the sections one after the other, laid-out sections lie at their offsets. */
  lemma SectionsHeld(body: seq<Byte>, out: seq<Byte>, vals: seq<SectionValue>)
    requires Extends(out, body) && OffsetsAgree(vals, |vals|) && HoldsSections(body, FILE_HEADER, vals, |vals|)
    ensures forall i :: 0 <= i < |vals| && vals[i].name != "" && !vals[i].nobits ==>
            HoldsAt(out, vals[i].offset, vals[i].data)
  {
    forall i | 0 <= i < |vals| && vals[i].name != "" && !vals[i].nobits
      ensures HoldsAt(out, vals[i].offset, vals[i].data)
    {
      StillHolds(body, out, vals[i].offset, vals[i].FileBytes());
      HoldsFront(out, vals[i].offset, vals[i].FileBytes(), vals[i].data);
    }
  }

  /**
   Writes the file. Every section with file bytes lies at its recorded offset, the section headers
   lie at `e_shoff` and the program headers at `e_phoff`, each at the index of its section or segment.
   */
  method SaveAsCubin(fileHeader: seq<Byte>, secs: seq<CuAsmSection>, sectionHeaders: seq<seq<Byte>>,
                     segmentHeaders: seq<seq<Byte>>, l: Layout) returns (out: seq<Byte>)
    requires |fileHeader| == 64 && IsLayout(Values(secs), l)
    requires |sectionHeaders| == |secs| && forall i :: 0 <= i < |secs| ==> |sectionHeaders[i]| == 64
    requires forall i :: 0 <= i < |segmentHeaders| ==> |segmentHeaders[i]| == 56
    ensures HoldsAt(out, 0, fileHeader)
    ensures forall i :: 0 <= i < |secs| && Values(secs)[i].name != "" && !Values(secs)[i].nobits ==>
              HoldsAt(out, Values(secs)[i].offset, Values(secs)[i].data)
    ensures forall i :: 0 <= i < |secs| ==> HoldsAt(out, l.shoff + i * 64, sectionHeaders[i])
    ensures forall i :: 0 <= i < |segmentHeaders| ==> HoldsAt(out, l.phoff + i * 56, segmentHeaders[i])
    ensures |out| == l.phoff + |segmentHeaders| * 56
  {
    var body := WriteSections(fileHeader, secs);
    out := WriteTables(body, sectionHeaders, segmentHeaders, l);
    SectionsHeld(body, out, Values(secs));
    ExtendsTransitive(fileHeader, body, out);
  }
}
