/** Saving and loading repositories. */
module ReposRoundTrip {
  /**
   Saving and loading a repository: the text of encoders and repositories, and that reading it gives
   the same repository.
   */

  import opened Wrappers
  import opened LinearAlgebra
  import opened Rationals
  import opened RationalMatrix
  import opened OrderedMaps
  import opened InsSamples
  import opened InsTraining
  import opened InsAssembler
  import opened SMVersion
  import opened ReposLexer
  import opened ReposNumbers
  import opened ReposTokenizer
  import opened ReposParser
  import opened ReposMatrices
  import opened ReposStates
  import opened ReposFile
  import opened ReposFaithful
  import opened ReposPrinter

  // ---------- Records ----------

  function ArchText(arch: int, k: string): string {
    "CuSMVersion" + ("(" + (DecText(arch) + (")" + k)))
  }

  lemma ArchPrints(arch: int, r: string, k: seq<Token>)
    requires Prints(r, k)
    ensures Prints(ArchText(arch, r), ArchToks(arch, k))
  {
    var k2 := [Punct(')')] + k;
    PutPunct(')', r, k);
    PutDec(arch, ")" + r, k2);
    PutPunct('(', DecText(arch) + (")" + r), [Num(DecText(arch))] + k2);
    PutName("CuSMVersion", "(" + (DecText(arch) + (")" + r)), [Punct('(')] + ([Num(DecText(arch))] + k2));
  }

  function CodeText(i: InsInfo, arch: int, k: string): string {
    HexText(i.code, CodeWidth(arch)) + ("," + (" " + (Plain(i.asmText) + (")" + k))))
  }

  function InfoText(i: InsInfo, arch: int, k: string): string {
    "(" + (HexText(i.addr, 6) + ("," + (" " + CodeText(i, arch, k))))
  }

  lemma CodePrints(i: InsInfo, arch: int, r: string, k: seq<Token>)
    requires IsPlain(i.asmText) && Prints(r, k)
    ensures Prints(CodeText(i, arch, r), CodeToks(i, arch, k))
  {
    SmallBlanks();
    PutPunct(')', r, k);
    var r2, k2 := Plain(i.asmText) + (")" + r), [Str(i.asmText)] + ([Punct(')')] + k);
    PutPlain(i.asmText, ")" + r, [Punct(')')] + k);
    PutPunctBlank(',', " ", r2, k2);
    PutHex(i.code, CodeWidth(arch), "," + (" " + r2), [COMMA] + k2);
  }

  lemma InfoPrints(i: InsInfo, arch: int, r: string, k: seq<Token>)
    requires IsPlain(i.asmText) && Prints(r, k)
    ensures Prints(InfoText(i, arch, r), InfoToks(i, arch, k))
  {
    var r2, k2 := CodeText(i, arch, r), CodeToks(i, arch, k);
    CodePrints(i, arch, r, k);
    SmallBlanks();
    PutPunctBlank(',', " ", r2, k2);
    PutHex(i.addr, 6, "," + (" " + r2), [COMMA] + k2);
    PutPunct('(', HexText(i.addr, 6) + ("," + (" " + r2)), [Num(HexText(i.addr, 6))] + ([COMMA] + k2));
  }

  predicate InfosPlain(xs: seq<InsInfo>) {
    forall i :: 0 <= i < |xs| ==> IsPlain(xs[i].asmText)
  }

  function InfoItemsText(xs: seq<InsInfo>, arch: int, k: string): string {
    if xs == [] then "]" + k else InfoText(xs[0], arch, "," + ("\n" + InfoItemsText(xs[1..], arch, k)))
  }

  lemma {:induction false} InfoItemsPrint(xs: seq<InsInfo>, arch: int, r: string, k: seq<Token>)
    requires InfosPlain(xs) && Prints(r, k)
    ensures Prints(InfoItemsText(xs, arch, r), InfoItems(xs, arch, k))
  {
    if xs == [] {
      PutPunct(']', r, k);
    } else {
      var r1, k1 := InfoItemsText(xs[1..], arch, r), InfoItems(xs[1..], arch, k);
      InfoItemsPrint(xs[1..], arch, r, k);
      SmallBlanks();
      PutPunctBlank(',', "\n", r1, k1);
      InfoPrints(xs[0], arch, "," + ("\n" + r1), [COMMA] + k1);
    }
  }

  predicate ErrsPlain(xs: seq<(int, InsInfo)>) {
    forall i :: 0 <= i < |xs| ==> IsPlain(xs[i].1.asmText)
  }

  function ErrItemsText(xs: seq<(int, InsInfo)>, arch: int, k: string): string {
    if xs == [] then "}" + k
    else
      var rest := "," + ("\n" + ErrItemsText(xs[1..], arch, k));
      HexText(xs[0].0, 0) + (" " + (":" + (" " + InfoText(xs[0].1, arch, rest))))
  }

  lemma {:induction false} ErrItemsPrint(xs: seq<(int, InsInfo)>, arch: int, r: string, k: seq<Token>)
    requires ErrsPlain(xs) && Prints(r, k)
    ensures Prints(ErrItemsText(xs, arch, r), ErrItems(xs, arch, k))
  {
    if xs == [] {
      PutPunct('}', r, k);
    } else {
      var r1, k1 := ErrItemsText(xs[1..], arch, r), ErrItems(xs[1..], arch, k);
      ErrItemsPrint(xs[1..], arch, r, k);
      SmallBlanks();
      PutPunctBlank(',', "\n", r1, k1);
      var r2, k2 := InfoText(xs[0].1, arch, "," + ("\n" + r1)), InfoToks(xs[0].1, arch, [COMMA] + k1);
      InfoPrints(xs[0].1, arch, "," + ("\n" + r1), [COMMA] + k1);
      PutPunctBlank(':', " ", r2, k2);
      PutBlank(" ", ":" + (" " + r2), [Punct(':')] + k2);
      PutHex(xs[0].0, 0, " " + (":" + (" " + r2)), [Punct(':')] + k2);
    }
  }

  // ---------- The solution and its comments ----------

  function ValueCount(s: State): nat {
    if s.insRepos == [] then 0 else |s.insRepos[0].vals|
  }

  /** The name of a column: its modifier, the predicate, or a numbered value. */
  function ColumnName(s: State, i: nat): string {
    if i < |s.insModiSet| then s.insModiSet[i].0
    else if i == |s.insModiSet| then "Pred"
    else "V" + DecText(i - |s.insModiSet|)
  }

  /** The length of the longest of the first `n` names. */
  function LongestName(s: State, n: nat): nat {
    if n == 0 then 0
    else
      var w := LongestName(s, n - 1);
      if |ColumnName(s, n - 1)| > w then |ColumnName(s, n - 1)| else w
  }

  /** Hexadecimal, 32 characters wide with its sign and prefix. */
  function FixedHex(v: int): string {
    HexText(v, if v < 0 then 29 else 30)
  }

  /** The comment behind an entry of the solution: its column, and its value where the common factor is not 1. */
  function NoteText(s: State, i: nat, num: int): string {
    if s.pSolFac <= 1 then ColumnName(s, i)
    else
      Padding(ColumnName(s, i), LongestName(s, |s.insModiSet| + if ValueCount(s) == 0 then 1 else ValueCount(s)))
      + ColumnName(s, i) + " : "
      + (if num % s.pSolFac == 0 then FixedHex(num / s.pSolFac) else FixedHex(num) + " / " + HexText(s.pSolFac, 0))
  }

  function CommentText(note: string): string {
    " " + Comment(" " + note)
  }

  /** A comment is skipped, whatever follows, exactly if the text behind a first line end in it is. */
  lemma {:induction false} CommentSkippedIff(note: string)
    ensures IsBlank(CommentText(note)) <==> '\n' !in note || IsBlank(AfterLine(note) + "\n")
    ensures IsBlank(CommentText(note)) <==> forall r: string :: Lex(CommentText(note) + r) == Lex(r)
  {
    assert CommentText(note)[1..] == Comment(" " + note) && (" " + note)[1..] == note;
    CommentBlankIff(" " + note);
    InvisibleIffBlank(CommentText(note));
  }

  /** The comment behind entry `i` of the solution is skipped. */
  ghost predicate NoteSkipped(s: State, i: nat, num: int) {
    IsBlank(CommentText(NoteText(s, i, num)))
  }

  /** All comments behind the solution are skipped. */
  ghost predicate NotesSkipped(s: State) {
    var rows := PrintedSolution(s).rows;
    forall i: nat :: i < |rows| ==> NoteSkipped(s, i, rows[i][0].Floor)
  }

  lemma {:induction false} NumbersInLine(v: int, width: nat)
    ensures '\n' !in DecText(v) && '\n' !in HexText(v, width)
  {
    assert forall c: char :: c == '\n' ==> !IsHexDigit(c);
    assert AllChars(Digits(Abs(v), 10), IsHexDigit) && AllChars(Digits(Abs(v), 16), IsHexDigit);
  }

  lemma {:induction false} FactorInLine(num: int, fac: int)
    requires fac > 1
    ensures '\n' !in (if num % fac == 0 then FixedHex(num / fac) else FixedHex(num) + " / " + HexText(fac, 0))
  {
    NumbersInLine(num / fac, if num / fac < 0 then 29 else 30);
    NumbersInLine(num, if num < 0 then 29 else 30);
    NumbersInLine(fac, 0);
  }

  lemma {:induction false} NoteInLine(s: State, i: nat, num: int)
    requires '\n' !in ColumnName(s, i)
    ensures '\n' !in NoteText(s, i, num)
  {
    if s.pSolFac > 1 {
      FactorInLine(num, s.pSolFac);
    }
  }

  /** Modifiers without line ends are harmless. */
  lemma {:induction false} InLineNamesSkipped(s: State)
    requires forall j :: 0 <= j < |s.insModiSet| ==> '\n' !in s.insModiSet[j].0
    ensures NotesSkipped(s)
  {
    var rows: Mat := PrintedSolution(s).rows;
    forall i: nat | i < |rows|
      ensures NoteSkipped(s, i, rows[i][0].Floor)
    {
      NumbersInLine(i - |s.insModiSet|, 0);
      NoteInLine(s, i, rows[i][0].Floor);
      CommentSkippedIff(NoteText(s, i, rows[i][0].Floor));
    }
  }

  /** The entries of the solution from `i` on, one to a line. */
  ghost function SolutionRowsText(s: State, rows: Mat, i: nat, k: string): string
    requires IsMat(rows, 1) && i <= |rows|
    decreases |rows| - i
  {
    if i == |rows| then "]" + k
    else
      "[" + (" " + (PaddedCell(rows, i, 0, true) + (CellText(rows[i][0], true) + ("]" + ("," +
        (CommentText(NoteText(s, i, rows[i][0].Floor)) + SolutionRowsText(s, rows, i + 1, k)))))))
  }

  lemma SolutionRowPrints(pad: string, x: real, note: string, r: string, k: seq<Token>)
    requires IsBlank(pad) && IsBlank(CommentText(note)) && Prints(r, k)
    ensures Prints("[" + (" " + (pad + (CellText(x, true) + ("]" + ("," + (CommentText(note) + r)))))),
                   [Punct('[')] + RowItems([x], true, [COMMA] + k))
  {
    PutPunctBlank(',', CommentText(note), r, k);
    var r2, k2 := "]" + ("," + (CommentText(note) + r)), [Punct(']')] + ([COMMA] + k);
    PutPunct(']', "," + (CommentText(note) + r), [COMMA] + k);
    CellPrints(x, true, r2, k2);
    SmallBlanks();
    var r1, k1 := CellText(x, true) + r2, CellToks(x, true, k2);
    PutBlank(pad, r1, k1);
    PutPunctBlank('[', " ", pad + r1, k1);
    assert [x][1..] == [];
  }

  lemma {:induction false} SolutionRowsPrint(s: State, rows: Mat, i: nat, r: string, k: seq<Token>)
    requires IsMat(rows, 1) && i <= |rows| && Prints(r, k)
    requires forall j: nat :: j < |rows| ==> NoteSkipped(s, j, rows[j][0].Floor)
    ensures Prints(SolutionRowsText(s, rows, i, r), MatItems(rows[i..], true, k))
    decreases |rows| - i
  {
    if i == |rows| {
      PutPunct(']', r, k);
    } else {
      var left := rows[i..];
      assert left[1..] == rows[i + 1..] && left[0] == rows[i] == [rows[i][0]];
      SolutionRowsPrint(s, rows, i + 1, r, k);
      assert NoteSkipped(s, i, rows[i][0].Floor);
      SpacesBlank(|PaddedCell(rows, i, 0, true)|);
      SolutionRowPrints(PaddedCell(rows, i, 0, true), rows[i][0], NoteText(s, i, rows[i][0].Floor),
                        SolutionRowsText(s, rows, i + 1, r), MatItems(rows[i + 1..], true, k));
    }
  }

  ghost function SolutionText(s: State, k: string): string {
    "Matrix" + ("(" + ("[" + ("\n" + SolutionRowsText(s, PrintedSolution(s).rows, 0, ")" + k))))
  }

  /** The printed solution is read as the matrix `m`. */
  ghost predicate SolutionReadsAs(s: State, m: Matrix) {
    forall r: string, k: seq<Token> {:trigger SolutionText(s, r), MatrixToks(m, true, k)} ::
      Prints(r, k) ==> Prints(SolutionText(s, r), MatrixToks(m, true, k))
  }

  /** With all comments skipped, the solution is read as printed. */
  lemma {:induction false} SolutionReads(s: State)
    requires NotesSkipped(s)
    ensures SolutionReadsAs(s, PrintedSolution(s))
  {
    forall r: string, k: seq<Token> | Prints(r, k)
      ensures Prints(SolutionText(s, r), MatrixToks(PrintedSolution(s), true, k))
    {
      SolutionPrints(s, r, k);
    }
  }

  lemma {:induction false} SolutionPrints(s: State, r: string, k: seq<Token>)
    requires NotesSkipped(s) && Prints(r, k)
    ensures Prints(SolutionText(s, r), MatrixToks(PrintedSolution(s), true, k))
  {
    var m, k1 := PrintedSolution(s), [Punct(')')] + k;
    assert Shown(m).rows == m.rows && m.rows[0..] == m.rows;
    PutPunct(')', r, k);
    SolutionRowsPrint(s, m.rows, 0, ")" + r, k1);
    RowsFramed(SolutionRowsText(s, m.rows, 0, ")" + r), MatItems(m.rows, true, k1));
  }

  lemma {:induction false} RowsFramed(r: string, k: seq<Token>)
    requires Prints(r, k)
    ensures Prints("Matrix" + ("(" + ("[" + ("\n" + r))), [Ident("Matrix")] + ([Punct('(')] + ([Punct('[')] + k)))
  {
    SmallBlanks();
    PutPunctBlank('[', "\n", r, k);
    PutPunct('(', "[" + ("\n" + r), [Punct('[')] + k);
    PutName("Matrix", "(" + ("[" + ("\n" + r)), [Punct('(')] + ([Punct('[')] + k));
  }

  // ---------- Encoders ----------

  /** States with assembly text that is printed as it is: without quotes and backslashes. */
  ghost predicate Printable(s: State) {
    StateFits(s) && InfosPlain(s.insRecords) && ErrsPlain(s.errRecords) && s.pSolFac >= 1
  }

  ghost function NullMatText(m: Matrix, k: string): string {
    if m.rows == [] then "None" + k else MatrixText(m, false, k)
  }

  ghost function ValueText(s: State, f: Field, k: string): string {
    match f
    case InsKey(key) => Quoted(key) + k
    case InsRepos(entries) => EntryListText(entries, k)
    case InsModiSet(columns) => ModiSetText(columns, k)
    case ValMatrix(m) => MatrixText(m, false, k)
    case PSol(m) => SolutionText(s, k)
    case PSolFac(fac) => DecText(fac) + k
    case ValNullMat(m) => NullMatText(m, k)
    case InsRecords(records) => "[" + InfoItemsText(records, s.arch, k)
    case ErrRecords(errs) => "{" + ErrItemsText(errs, s.arch, k)
    case Rhs(m) => MatrixText(m, true, k)
    case Arch(version) => ArchText(version, k)
  }

  /** The field belongs to the state and can be printed. */
  ghost predicate FieldOfState(s: State, f: Field) {
    match f
    case PSol(m) => SolutionReadsAs(s, m)
    case InsRecords(records) => InfosPlain(records)
    case ErrRecords(errs) => ErrsPlain(errs)
    case _ => true
  }

  lemma NullMatPrints(m: Matrix, r: string, k: seq<Token>)
    requires Delimited(r) && Prints(r, k)
    ensures Prints(NullMatText(m, r), NullMatToks(m, k))
  {
    PutName("None", r, k);
    MatrixPrints(m, false, r, k);
  }

  lemma RecordsPrint(s: State, f: Field, r: string, k: seq<Token>)
    requires f.InsRecords? || f.ErrRecords?
    requires FieldOfState(s, f) && Prints(r, k)
    ensures Prints(ValueText(s, f, r), BodyToks(f, s.arch, k))
  {
    if f.InsRecords? {
      InfoItemsPrint(f.records, s.arch, r, k);
      PutPunct('[', InfoItemsText(f.records, s.arch, r), InfoItems(f.records, s.arch, k));
    } else {
      ErrItemsPrint(f.errs, s.arch, r, k);
      PutPunct('{', ErrItemsText(f.errs, s.arch, r), ErrItems(f.errs, s.arch, k));
    }
  }

  lemma ValuePrints(s: State, f: Field, r: string, k: seq<Token>)
    requires FieldOfState(s, f) && Delimited(r) && Prints(r, k)
    ensures Prints(ValueText(s, f, r), BodyToks(f, s.arch, k))
  {
    match f
    case InsKey(key) => PutQuoted(key, r, k);
    case InsRepos(entries) => EntryListPrints(entries, r, k);
    case InsModiSet(columns) => ModiSetPrints(columns, r, k);
    case ValMatrix(m) => MatrixPrints(m, false, r, k);
    case PSol(m) => assert Prints(SolutionText(s, r), MatrixToks(m, true, k));
    case PSolFac(fac) => PutDec(fac, r, k);
    case ValNullMat(m) => NullMatPrints(m, r, k);
    case InsRecords(records) => RecordsPrint(s, f, r, k);
    case ErrRecords(errs) => RecordsPrint(s, f, r, k);
    case Rhs(m) => MatrixPrints(m, true, r, k);
    case Arch(version) => ArchPrints(version, r, k);
  }

  /** All fields but the first are indented. */
  function Indent(f: Field): string {
    if f.InsKey? then "" else "  "
  }

  /** Every field but the error records ends its line. */
  function FieldEnd(f: Field): string {
    if f.ErrRecords? then " " else " \n"
  }

  ghost function FieldText(s: State, f: Field, k: string): string {
    Indent(f) + (Plain(NameOf(f)) + (" " + (":" + (" " + ValueText(s, f, k)))))
  }

  ghost function FieldItemsText(s: State, fs: seq<Field>, k: string): string {
    if fs == [] then " " + ("}" + k)
    else FieldText(s, fs[0], SepText(fs, FieldEnd(fs[0]), FieldItemsText(s, fs[1..], k)))
  }

  lemma NamedPrints(indent: string, name: string, r: string, k: seq<Token>)
    requires IsBlank(indent) && IsPlain(name) && Prints(r, k)
    ensures Prints(indent + (Plain(name) + (" " + (":" + (" " + r)))), [Str(name)] + ([Punct(':')] + k))
  {
    SmallBlanks();
    PutPunctBlank(':', " ", r, k);
    PutBlank(" ", ":" + (" " + r), [Punct(':')] + k);
    var r2, k2 := " " + (":" + (" " + r)), [Punct(':')] + k;
    PutPlain(name, r2, k2);
    PutBlank(indent, Plain(name) + r2, [Str(name)] + k2);
  }

  lemma NamesPlain(f: Field)
    ensures IsPlain(NameOf(f))
  {
  }

  lemma FieldPrints(s: State, f: Field, r: string, k: seq<Token>)
    requires FieldOfState(s, f) && Delimited(r) && Prints(r, k)
    ensures Prints(FieldText(s, f, r), [Str(NameOf(f))] + ([Punct(':')] + BodyToks(f, s.arch, k)))
  {
    ValuePrints(s, f, r, k);
    NamesPlain(f);
    SmallBlanks();
    assert IsBlank("");
    NamedPrints(Indent(f), NameOf(f), ValueText(s, f, r), BodyToks(f, s.arch, k));
  }

  ghost predicate FieldsOfState(s: State, fs: seq<Field>) {
    forall i :: 0 <= i < |fs| ==> FieldOfState(s, fs[i])
  }

  lemma {:induction false} FieldItemsPrint(s: State, fs: seq<Field>, r: string, k: seq<Token>)
    requires FieldsOfState(s, fs) && Prints(r, k)
    ensures Prints(FieldItemsText(s, fs, r), FieldItems(fs, s.arch, k))
    ensures |fs| == 0 ==> Delimited(FieldItemsText(s, fs, r))
    decreases |fs|
  {
    SmallBlanks();
    if fs == [] {
      PutPunct('}', r, k);
      PutBlank(" ", "}" + r, [Punct('}')] + k);
    } else {
      var r1, k1 := FieldItemsText(s, fs[1..], r), FieldItems(fs[1..], s.arch, k);
      FieldItemsPrint(s, fs[1..], r, k);
      PutSep(fs, FieldEnd(fs[0]), r1, k1);
      FieldPrints(s, fs[0], SepText(fs, FieldEnd(fs[0]), r1), Sep(fs, k1));
    }
  }

  ghost function StateText(s: State, k: string): string {
    "CuInsAssembler" + ("(" + (Plain("") + ("," + (" "
      + ("{" + FieldItemsText(s, FieldsWith(s, PrintedSolution(s)), ")" + k))))))
  }

  lemma {:induction false} FieldsBelong(s: State, m: Matrix)
    requires Printable(s) && SolutionReadsAs(s, m)
    ensures FieldsOfState(s, FieldsWith(s, m))
  {
    forall i | 0 <= i < |FieldsWith(s, m)|
      ensures FieldOfState(s, FieldsWith(s, m)[i])
    {
    }
  }

  /** Equal fields, up to how the solution is read. */
  ghost predicate SameField(f: Field, g: Field) {
    f == g || (f.PSol? && g.PSol?)
  }

  lemma {:induction false} SameFieldText(s: State, f: Field, g: Field, k: string)
    requires SameField(f, g)
    ensures FieldText(s, f, k) == FieldText(s, g, k) && FieldEnd(f) == FieldEnd(g)
  {
  }

  /** The text of the fields does not depend on how the solution is read. */
  lemma {:induction false} SameFieldsText(s: State, fs: seq<Field>, gs: seq<Field>, k: string)
    requires |fs| == |gs| && forall i :: 0 <= i < |fs| ==> SameField(fs[i], gs[i])
    ensures FieldItemsText(s, fs, k) == FieldItemsText(s, gs, k)
    decreases |fs|
  {
    if fs != [] {
      SameFieldsText(s, fs[1..], gs[1..], k);
      SameFieldText(s, fs[0], gs[0], SepText(fs, FieldEnd(fs[0]), FieldItemsText(s, fs[1..], k)));
      var rest := FieldItemsText(s, gs[1..], k);
      assert SepText(fs, FieldEnd(fs[0]), rest) == SepText(gs, FieldEnd(gs[0]), rest);
    }
  }

  lemma EncoderPrints(r: string, k: seq<Token>)
    requires Prints(r, k)
    ensures Prints("CuInsAssembler" + ("(" + (Plain("") + ("," + (" " + ("{" + r))))),
                   [Ident("CuInsAssembler")] + ([Punct('(')] + ([Str("")] + ([COMMA] + ([Punct('{')] + k)))))
  {
    PutPunct('{', r, k);
    SmallBlanks();
    var r3, k3 := "{" + r, [Punct('{')] + k;
    PutPunctBlank(',', " ", r3, k3);
    PutPlain("", "," + (" " + r3), [COMMA] + k3);
    var r1, k1 := Plain("") + ("," + (" " + r3)), [Str("")] + ([COMMA] + k3);
    PutPunct('(', r1, k1);
    PutName("CuInsAssembler", "(" + r1, [Punct('(')] + k1);
  }

  lemma {:induction false} StateFieldsPrint(s: State, m: Matrix, fs: seq<Field>, r: string, k: seq<Token>)
    requires Printable(s) && SolutionReadsAs(s, m) && Prints(r, k) && fs == FieldsWith(s, m)
    ensures Prints(FieldItemsText(s, fs, ")" + r), FieldItems(fs, s.arch, [Punct(')')] + k))
  {
    FieldsBelong(s, m);
    PutPunct(')', r, k);
    FieldItemsPrint(s, fs, ")" + r, [Punct(')')] + k);
  }

  lemma {:induction false} SolutionTextOnly(s: State, m: Matrix, n: Matrix, r: string)
    ensures FieldItemsText(s, FieldsWith(s, m), r) == FieldItemsText(s, FieldsWith(s, n), r)
  {
    SameFieldsText(s, FieldsWith(s, m), FieldsWith(s, n), r);
  }

  /** The text of an encoder is a printed form of its fields, with the solution as it is read. */
  lemma {:induction false} StatePrints(s: State, m: Matrix, r: string, k: seq<Token>)
    requires Printable(s) && SolutionReadsAs(s, m) && Prints(r, k)
    ensures Prints(StateText(s, r), EncoderToks(SavedWith(s, m), k))
  {
    StateFieldsPrint(s, m, FieldsWith(s, m), r, k);
    SolutionTextOnly(s, PrintedSolution(s), m, ")" + r);
    EncoderPrints(FieldItemsText(s, FieldsWith(s, m), ")" + r), FieldItems(FieldsWith(s, m), s.arch, [Punct(')')] + k));
  }

  // ---------- States reached by learning ----------

  function Columns(entries: seq<(string, nat)>): seq<(string, int)> {
    seq(|entries|, i requires 0 <= i < |entries| => (entries[i].0, entries[i].1 as int))
  }

  /** What is saved of an encoder. */
  ghost function StateOf(a: CuInsAssembler, arch: int): State
    reads a, a.insModiSet, a.errRecords
  {
    State(a.insKey, a.insRepos, Columns(a.insModiSet.entries), a.valMatrix, a.weights.pSol, a.weights.fac,
          a.weights.nullMat, a.rhs, a.insRecords, a.errRecords.entries, arch)
  }

  lemma ColumnsFit(a: CuInsAssembler)
    requires a.Valid()
    ensures Ascending(Columns(a.insModiSet.entries)) && KeysDistinct(Columns(a.insModiSet.entries))
    ensures KeysDistinct(a.errRecords.entries)
  {
    var cols := Columns(a.insModiSet.entries);
    forall i, j | 0 <= i < j < |cols|
      ensures cols[i].0 != cols[j].0 && cols[i].1 < cols[j].1
    {
      assert a.insModiSet.Keys()[i] == cols[i].0 && a.insModiSet.Keys()[j] == cols[j].0;
    }
    KeysOfValid(a.errRecords);
  }

  lemma KeysOfValid<V>(m: OrderedMap<int, V>)
    requires m.Valid()
    ensures KeysDistinct(m.entries)
  {
  }

  lemma TrainedMatricesFit(width: nat, e: Encoder, t: Weights, w: Vec, rhs: Matrix)
    requires Trained(width, e, t, w) && rhs.Valid() && rhs.cols == 1 && Column(rhs.rows, 0) == e.Codes()
    ensures Matrix(|e.keys| + width, e.Rows()).Rational() && rhs.Rational()
    ensures t.nullMat.Valid() && t.nullMat.Rational() && (t.nullMat.rows == [] ==> t.nullMat == EMPTY)
    ensures t.pSol.Valid() && t.pSol.cols == 1 && |t.pSol.rows| == |e.keys| + width && t.fac >= 1
    ensures forall i :: 0 <= i < |t.pSol.rows| ==> IsInteger(t.pSol.rows[i][0])
    ensures t.nullMat.rows != [] ==> t.nullMat.cols == |e.keys| + width
    ensures |rhs.rows| == |e.repos|
  {
    RowsRational(e);
    assert LinearAlgebra.Zeros(0) + e.Codes() == e.Codes();
    RhsRational(0, e, rhs.rows);
  }

  /** The matrices of an encoder that learned. */
  lemma {:induction false} LearnedMatricesFit(a: CuInsAssembler)
    requires a.Valid()
    ensures FieldFits(ValMatrix(a.valMatrix)) && FieldFits(ValNullMat(a.weights.nullMat)) && FieldFits(Rhs(a.rhs))
    ensures a.weights.fac >= 1 && a.weights.pSol.Valid()
    ensures a.insRepos == [] ==> a.insModiSet.entries == []
    ensures a.insRepos != [] ==>
              a.weights.pSol.cols == 1 && |a.weights.pSol.rows| == |a.insRepos[0].vals| + |a.insModiSet.entries|
  {
    if a.insRepos != [] {
      TrainedMatricesFit(a.width, a.State(), a.weights, a.solution, a.rhs);
      assert |a.insRepos[0].vals| == a.width;
    } else {
      assert a.insModiSet.Keys() == [];
    }
  }

  lemma {:induction false} LearnedFits(a: CuInsAssembler, arch: int)
    requires a.Valid() && arch in SM_VERSIONS && InfosFit(a.insRecords) && ErrsFit(a.errRecords.entries)
    ensures StateFits(StateOf(a, arch)) && a.weights.fac >= 1
  {
    ColumnsFit(a);
    LearnedMatricesFit(a);
  }

  /** Every encoder that learned its weights has a faithful state: it would be read back unchanged. */
  lemma {:induction false} LearnedIsFaithful(a: CuInsAssembler, arch: int)
    requires a.Valid() && arch in SM_VERSIONS && InfosFit(a.insRecords) && ErrsFit(a.errRecords.entries)
    ensures StateFits(StateOf(a, arch)) && Faithful(StateOf(a, arch)) &&
            ShownState(StateOf(a, arch)) == StateOf(a, arch)
    ensures a.weights.fac >= 1
  {
    LearnedFits(a, arch);
    if a.insRepos != [] {
      TrainedMatricesFit(a.width, a.State(), a.weights, a.solution, a.rhs);
      assert |a.insRepos[0].vals| == a.width;
    }
    ShownIffFaithful(StateOf(a, arch));
  }

  // ---------- Repositories ----------

  /** The encoders are printable, and their solutions are read as `ms`. */
  ghost predicate ReadsAs(xs: seq<(string, State)>, ms: seq<Matrix>) {
    |ms| == |xs| && forall i :: 0 <= i < |xs| ==> Printable(xs[i].1) && SolutionReadsAs(xs[i].1, ms[i])
  }

  ghost function DictItemsText(xs: seq<(string, State)>, k: string): string {
    if xs == [] then "}" + k
    else Quoted(xs[0].0) + (":" + StateText(xs[0].1, SepText(xs, "\n", DictItemsText(xs[1..], k))))
  }

  function ReposArchText(arch: Option<int>, k: string): string {
    "," + (" " + ("arch" + ("=" + (if arch.Some? then ArchText(arch.value, ")" + k) else "None" + (")" + k)))))
  }

  /** The text of a saved repository. */
  ghost function ReposText(xs: seq<(string, State)>, arch: Option<int>): string {
    "CuInsAssemblerRepos" + ("(" + ("{" + DictItemsText(xs, ReposArchText(arch, ""))))
  }

  lemma {:induction false} DictItemsPrint(xs: seq<(string, State)>, ms: seq<Matrix>, r: string, k: seq<Token>)
    requires ReadsAs(xs, ms) && Prints(r, k)
    ensures Prints(DictItemsText(xs, r), DictItems(SavedDict(xs, ms), k))
    decreases |xs|
  {
    if xs == [] {
      PutPunct('}', r, k);
    } else {
      var saved := SavedDict(xs, ms);
      assert saved[1..] == SavedDict(xs[1..], ms[1..]);
      DictItemsPrint(xs[1..], ms[1..], r, k);
      var r1, k1 := DictItemsText(xs[1..], r), DictItems(saved[1..], k);
      SmallBlanks();
      PutSep(saved, "\n", r1, k1);
      EntryOfDictPrints(xs[0].0, xs[0].1, ms[0], SepText(xs, "\n", r1), Sep(saved, k1));
    }
  }

  lemma {:induction false} EntryOfDictPrints(key: string, s: State, m: Matrix, r: string, k: seq<Token>)
    requires Printable(s) && SolutionReadsAs(s, m) && Prints(r, k)
    ensures Prints(Quoted(key) + (":" + StateText(s, r)), [Str(key)] + ([Punct(':')] + EncoderToks(SavedWith(s, m), k)))
  {
    StatePrints(s, m, r, k);
    PutPunct(':', StateText(s, r), EncoderToks(SavedWith(s, m), k));
    PutQuoted(key, ":" + StateText(s, r), [Punct(':')] + EncoderToks(SavedWith(s, m), k));
  }

  lemma ReposArchPrints(arch: Option<int>, r: string, k: seq<Token>)
    requires Prints(r, k)
    ensures Prints(ReposArchText(arch, r), ReposArchToks(arch, k))
  {
    var k3 := [Punct(')')] + k;
    PutPunct(')', r, k);
    var r2 := if arch.Some? then ArchText(arch.value, ")" + r) else "None" + (")" + r);
    var k2 := if arch.Some? then ArchToks(arch.value, k3) else [Ident("None")] + k3;
    if arch.Some? {
      ArchPrints(arch.value, ")" + r, k3);
    } else {
      PutName("None", ")" + r, k3);
    }
    PutPunct('=', r2, k2);
    PutName("arch", "=" + r2, [Punct('=')] + k2);
    SmallBlanks();
    PutPunctBlank(',', " ", "arch" + ("=" + r2), [Ident("arch")] + ([Punct('=')] + k2));
  }

  lemma RepositoryPrints(r: string, k: seq<Token>)
    requires Prints(r, k)
    ensures Prints("CuInsAssemblerRepos" + ("(" + ("{" + r)),
              [Ident("CuInsAssemblerRepos")] + ([Punct('(')] + ([Punct('{')] + k)))
  {
    PutPunct('{', r, k);
    PutPunct('(', "{" + r, [Punct('{')] + k);
    PutName("CuInsAssemblerRepos", "(" + ("{" + r), [Punct('(')] + ([Punct('{')] + k));
  }

  /** The text of a repository is a printed form of its tokens. */
  lemma {:induction false} ReposPrints(xs: seq<(string, State)>, ms: seq<Matrix>, arch: Option<int>)
    requires ReadsAs(xs, ms)
    ensures Renders(ReposText(xs, arch), ReposToks(SavedDict(xs, ms), arch))
  {
    var saved := SavedDict(xs, ms);
    assert Prints("", [End]);
    ReposArchPrints(arch, "", [End]);
    DictItemsPrint(xs, ms, ReposArchText(arch, ""), ReposArchToks(arch, [End]));
    RepositoryPrints(DictItemsText(xs, ReposArchText(arch, "")), DictItems(saved, ReposArchToks(arch, [End])));
    assert Prints(ReposText(xs, arch), ReposToks(saved, arch));
  }

  ghost predicate ReposFit(xs: seq<(string, State)>, arch: Option<int>) {
    StatesFit(xs) && KeysDistinct(xs) && (arch.Some? ==> arch.value in SM_VERSIONS)
  }

  /** Loads what was saved, whatever the solutions are read as. */
  method LoadText(contents: string, ghost xs: seq<(string, State)>, ghost ms: seq<Matrix>, ghost arch: Option<int>)
    returns (r: Result<seq<(string, State)>, ParseError>)
    requires contents == ReposText(xs, arch) && ReposFit(xs, arch)
    requires ReadsAs(xs, ms) && SolutionsFit(ms)
    ensures r.Success? <==> arch.Some?
    ensures r.Success? ==> r.value == ShownDict(xs, ms)
  {
    ReposPrints(xs, ms, arch);
    SavedDictReadsBack(xs, ms);
    r := ParseReposFile(contents, SavedDict(xs, ms), arch);
  }

  /** Repositories whose text says all: plain assembly text, and comments that are skipped. */
  ghost predicate DictPrintable(xs: seq<(string, State)>) {
    forall i :: 0 <= i < |xs| ==> Printable(xs[i].1) && NotesSkipped(xs[i].1)
  }

  lemma {:induction false} PrintableReads(xs: seq<(string, State)>)
    requires DictPrintable(xs)
    ensures ReadsAs(xs, Solutions(xs)) && SolutionsFit(Solutions(xs))
  {
    forall i | 0 <= i < |xs|
      ensures SolutionReadsAs(xs[i].1, Solutions(xs)[i]) && FieldFits(PSol(Solutions(xs)[i]))
    {
      SolutionReads(xs[i].1);
    }
  }

  /**
   Loads what was saved. Loading succeeds exactly if the repository has an architecture, and returns
   the saved repository exactly if moreover every encoder is faithful.
   */
  method LoadSaved(contents: string, ghost xs: seq<(string, State)>, ghost arch: Option<int>)
    returns (r: Result<seq<(string, State)>, ParseError>)
    requires contents == ReposText(xs, arch) && ReposFit(xs, arch) && DictPrintable(xs)
    ensures r.Success? <==> arch.Some?
    ensures r.Success? ==> r.value == ShownDict(xs, Solutions(xs))
    ensures r == Success(xs) <==> arch.Some? && DictFaithful(xs)
  {
    PrintableReads(xs);
    DictShownIffFaithful(xs);
    r := LoadText(contents, xs, Solutions(xs), arch);
  }

  /** What the text of a learned encoder needs: 64-bit addresses, plain assembly text, and comments that are skipped. */
  ghost predicate Savable(s: State) {
    && InfosFit(s.insRecords) && ErrsFit(s.errRecords)
    && InfosPlain(s.insRecords) && ErrsPlain(s.errRecords) && NotesSkipped(s)
  }

  /** Loads a repository of encoders that learned by pushing samples: it comes back as it was saved. */
  method LoadLearned(contents: string, ghost encoders: seq<CuInsAssembler>, ghost xs: seq<(string, State)>,
                     ghost arch: int)
    returns (r: Result<seq<(string, State)>, ParseError>)
    requires |encoders| == |xs| && KeysDistinct(xs) && arch in SM_VERSIONS
    requires forall i :: 0 <= i < |xs| ==>
               encoders[i].Valid() && xs[i].1 == StateOf(encoders[i], arch) && Savable(xs[i].1)
    requires contents == ReposText(xs, Some(arch))
    ensures r == Success(xs)
  {
    forall i | 0 <= i < |xs|
      ensures Printable(xs[i].1) && Faithful(xs[i].1)
    {
      LearnedIsFaithful(encoders[i], arch);
    }
    r := LoadSaved(contents, xs, Some(arch));
  }

  // ---------- A modifier that leaves its comment ----------

  const STRAY := "A\n[ 0x1], # B"

  /** One sample without values whose only modifier holds a line end and the text of a matrix row. */
  ghost function StrayState(): State {
    State("K", [Sample([], [STRAY], 0)], [(STRAY, 0)], EMPTY, Matrix(1, [[0.0]]), 1, EMPTY, EMPTY, [], [], 75)
  }

  /** The solution with the row that its comment adds. */
  ghost function StraySolution(): Matrix {
    Matrix(1, [[0.0], [1.0]])
  }

  lemma {:induction false} OneInHex()
    ensures CellText(1.0, true) == "0x1"
  {
    DenominatorOfInteger(1);
    assert 1 as real == 1.0;
    assert Digits(1, 16) == "1" && HexMagnitude(1, 0) == "0x1" && HexText(1, 0) == "0x1";
  }

  lemma {:induction false} StrayText(r: string)
    ensures CommentText(STRAY) + r ==
            CommentText("A") + ("[" + (" " + ("" + (CellText(1.0, true) + ("]" + ("," + (CommentText("B") + r)))))))
  {
    OneInHex();
    assert CommentText(STRAY) == CommentText("A") + "[ 0x1]," + CommentText("B");
  }

  lemma {:induction false} StrayRows(s: State)
    requires s == StrayState()
    ensures PrintedSolution(s).rows == [[0.0]] && NoteText(s, 0, 0) == STRAY
  {
    DenominatorOfInteger(0);
    assert 0 as real == 0.0;
    assert PrintedSolution(s).rows[0] == [0.0];
  }

  /** The comment of the first row is read as a second row. */
  lemma {:induction false} StrayReads(s: State)
    requires s == StrayState()
    ensures SolutionReadsAs(s, StraySolution()) && !NotesSkipped(s)
  {
    StrayRows(s);
    forall r: string, k: seq<Token> | Prints(r, k)
      ensures Prints(SolutionText(s, r), MatrixToks(StraySolution(), true, k))
    {
      StrayPrints(s, r, k);
    }
    StrayNotSkipped();
    assert NotesSkipped(s) ==> NoteSkipped(s, 0, PrintedSolution(s).rows[0][0].Floor);
  }

  lemma {:induction false} StrayNotSkipped()
    ensures !IsBlank(CommentText(STRAY))
  {
    CommentSkippedIff(STRAY);
    assert STRAY[1..] == "\n[ 0x1], # B" && AfterLine(STRAY) == "[ 0x1], # B";
  }

  /** Two rows with comments of their own, as printed text. */
  lemma {:induction false} TwoRowsPrint(pad: string, r: string, k: seq<Token>)
    requires IsBlank(pad) && Prints(r, k)
    ensures Prints("[" + (" " + (pad + (CellText(0.0, true) + ("]" + ("," + (CommentText(STRAY) + r)))))),
                   [Punct('[')] + RowItems([0.0], true, [COMMA] + ([Punct('[')] + RowItems([1.0], true, [COMMA] + k))))
  {
    CommentSkippedIff("A");
    CommentSkippedIff("B");
    assert IsBlank("");
    SolutionRowPrints("", 1.0, "B", r, k);
    StrayText(r);
    var second := "[" + (" " + ("" + (CellText(1.0, true) + ("]" + ("," + (CommentText("B") + r))))));
    SolutionRowPrints(pad, 0.0, "A", second, [Punct('[')] + RowItems([1.0], true, [COMMA] + k));
  }

  lemma {:induction false} StrayRowsText(s: State, pad: string, r: string)
    requires s == StrayState() && pad == PaddedCell([[0.0]], 0, 0, true)
    ensures IsBlank(pad)
    ensures SolutionRowsText(s, PrintedSolution(s).rows, 0, r) ==
            "[" + (" " + (pad + (CellText(0.0, true) + ("]" + ("," + (CommentText(STRAY) + ("]" + r)))))))
  {
    StrayRows(s);
    SpacesBlank(|pad|);
  }

  lemma {:induction false} StrayItems(k: seq<Token>)
    ensures MatItems([[0.0], [1.0]], true, k) ==
            [Punct('[')] + RowItems([0.0], true, [COMMA] +
              ([Punct('[')] + RowItems([1.0], true, [COMMA] + ([Punct(']')] + k))))
  {
    var rows, last, none: Mat := [[0.0], [1.0]], [[1.0]], [];
    assert rows[1..] == last && last[1..] == none;
    assert MatItems(none, true, k) == [Punct(']')] + k;
    assert MatItems(last, true, k) == [Punct('[')] + RowItems([1.0], true, [COMMA] + ([Punct(']')] + k));
  }

  lemma {:induction false} StrayPrints(s: State, r: string, k: seq<Token>)
    requires s == StrayState() && Prints(r, k)
    ensures Prints(SolutionText(s, r), MatrixToks(StraySolution(), true, k))
  {
    var pad, k1 := PaddedCell([[0.0]], 0, 0, true), [Punct(')')] + k;
    StrayRowsText(s, pad, ")" + r);
    StrayItems(k1);
    PutPunct(')', r, k);
    PutPunct(']', ")" + r, k1);
    TwoRowsPrint(pad, "]" + (")" + r), [Punct(']')] + k1);
    RowsFramed(SolutionRowsText(s, PrintedSolution(s).rows, 0, ")" + r), MatItems([[0.0], [1.0]], true, k1));
  }

  lemma {:induction false} StrayFits(s: State)
    requires s == StrayState()
    ensures Printable(s) && Faithful(s) && FieldFits(PSol(StraySolution()))
  {
    IntegerIsRational(0);
    IntegerIsRational(1);
    assert 0 as real == 0.0 && 1 as real == 1.0;
  }

  lemma {:induction false} StrayRepos(s: State, xs: seq<(string, State)>, ms: seq<Matrix>)
    requires s == StrayState() && xs == [("K", s)] && ms == [StraySolution()]
    ensures ReposFit(xs, Some(75)) && ReadsAs(xs, ms) && SolutionsFit(ms)
    ensures ShownDict(xs, ms) == [("K", s.(pSol := StraySolution()))]
  {
    StrayReads(s);
    StrayFits(s);
    assert ShownWith(s, StraySolution()) == s.(pSol := StraySolution());
  }

  /** The stray comment row becomes part of the loaded solution: this repository is not read back. */
  method LoadStray(contents: string) returns (r: Result<seq<(string, State)>, ParseError>)
    requires contents == ReposText([("K", StrayState())], Some(75))
    ensures r == Success([("K", StrayState().(pSol := StraySolution()))])
    ensures r != Success([("K", StrayState())])
  {
    ghost var s, xs := StrayState(), [("K", StrayState())];
    StrayRepos(s, xs, [StraySolution()]);
    r := LoadText(contents, xs, [StraySolution()], Some(75));
    assert s.pSol.rows != StraySolution().rows;
  }
}
