/**
 The text of a saved repository, character by character, and that it is a printed form of the
 repository's tokens. Text is written back to front: every function puts its piece before the text
 that follows.
 */
module ReposPrinter {
  import opened LinearAlgebra
  import opened RationalMatrix
  import opened InsSamples
  import opened ReposLexer
  import opened ReposNumbers
  import opened ReposParser
  import opened ReposMatrices

  // ---------- One token at a time ----------

  /** The text is a printed form of the tokens; stated so that it unfolds only where `Renders` is used. */
  ghost predicate Prints(text: string, toks: seq<Token>) {
    forall t: string {:trigger Renders(t, toks)} :: t == text ==> Renders(t, toks)
  }

  lemma {:induction false} BlankAppend(b: string, c: string)
    requires IsBlank(b) && IsBlank(c)
    ensures IsBlank(b + c)
    decreases |b|
  {
    if b == "" {
      assert b + c == c;
    } else if IsSpace(b[0]) {
      assert (b + c)[1..] == b[1..] + c;
      BlankAppend(b[1..], c);
    } else {
      SkipLineAppend(b, c);
      BlankAppend(SkipLine(b), c);
    }
  }

  lemma BlankBeforeToken(b: string, r: string, k: seq<Token>)
    requires IsBlank(b) && k != [End] && Renders(r, k)
    ensures Renders(b + r, k)
  {
    var c: string, l: string, q: string :|
      r == c + (l + q) && IsBlank(c) && IsLexeme(k[0], l) && Separate(k[0], q) && Renders(q, k[1..]);
    BlankAppend(b, c);
    assert b + r == (b + c) + (l + q);
    assert IsBlank(b + c) && Renders(q, k[1..]);
  }

  /** Blanks may stand before any token. */
  lemma PutBlank(b: string, r: string, k: seq<Token>)
    requires IsBlank(b) && Prints(r, k)
    ensures Prints(b + r, k)
  {
    assert Renders(r, k);
    if k == [End] {
      BlankAppend(b, r);
    } else {
      BlankBeforeToken(b, r, k);
    }
  }

  lemma PutToken(tok: Token, l: string, r: string, k: seq<Token>)
    requires IsLexeme(tok, l) && Separate(tok, r) && Prints(r, k)
    ensures Prints(l + r, [tok] + k)
  {
    var toks := [tok] + k;
    assert toks[1..] == k && Renders(r, toks[1..]);
    assert l + r == "" + (l + r);
    assert IsBlank("") && IsLexeme(toks[0], l);
    assert toks != [End];
  }

  lemma PutPunct(c: char, r: string, k: seq<Token>)
    requires IsPunct(c) && Prints(r, k)
    ensures Prints([c] + r, [Punct(c)] + k)
  {
    PutToken(Punct(c), [c], r, k);
  }

  lemma PutName(name: string, r: string, k: seq<Token>)
    requires IsIdentText(name) && Delimited(r) && Prints(r, k)
    ensures Prints(name + r, [Ident(name)] + k)
  {
    PutToken(Ident(name), name, r, k);
  }

  lemma PutNum(digits: string, r: string, k: seq<Token>)
    requires IsNumText(digits) && Delimited(r) && Prints(r, k)
    ensures Prints(digits + r, [Num(digits)] + k)
  {
    PutToken(Num(digits), digits, r, k);
  }

  /** The quoted form of any string. */
  function Quoted(s: string): string {
    "'" + Escaped(s) + "'"
  }

  lemma PutQuoted(s: string, r: string, k: seq<Token>)
    requires Prints(r, k)
    ensures Prints(Quoted(s) + r, [Str(s)] + k)
  {
    PutToken(Str(s), Quoted(s), r, k);
  }

  /** Text in double quotes, as it is. */
  function Plain(s: string): string {
    "\"" + s + "\""
  }

  predicate IsPlain(s: string) {
    '\\' !in s && '"' !in s
  }

  lemma PutPlain(s: string, r: string, k: seq<Token>)
    requires IsPlain(s) && Prints(r, k)
    ensures Prints(Plain(s) + r, [Str(s)] + k)
  {
    PutToken(Str(s), Plain(s), r, k);
  }

  lemma PutDec(v: int, r: string, k: seq<Token>)
    requires Delimited(r) && Prints(r, k)
    ensures Prints(DecText(v) + r, [Num(DecText(v))] + k)
  {
    DecRoundTrip(v);
    PutNum(DecText(v), r, k);
  }

  lemma PutHex(v: int, width: nat, r: string, k: seq<Token>)
    requires Delimited(r) && Prints(r, k)
    ensures Prints(HexText(v, width) + r, [Num(HexText(v, width))] + k)
  {
    HexRoundTrip(v, width);
    PutNum(HexText(v, width), r, k);
  }

  /** A punctuation character and blanks behind it. */
  lemma PutPunctBlank(c: char, b: string, r: string, k: seq<Token>)
    requires IsPunct(c) && IsBlank(b) && Prints(r, k)
    ensures Prints([c] + (b + r), [Punct(c)] + k)
  {
    PutBlank(b, r, k);
    PutPunct(c, b + r, k);
  }

  function Spaces(n: nat): string {
    seq(n, _ => ' ')
  }

  lemma {:induction false} SpacesBlank(n: nat)
    ensures IsBlank(Spaces(n))
  {
    if n > 0 {
      assert Spaces(n)[1..] == Spaces(n - 1);
      SpacesBlank(n - 1);
    }
  }

  lemma SmallBlanks()
    ensures IsBlank(" ") && IsBlank("  ") && IsBlank("\n") && IsBlank(" \n") && IsBlank(" \n  ") && IsBlank("   ")
  {
    SpacesBlank(1);
    SpacesBlank(2);
    SpacesBlank(3);
    assert Spaces(1) == " " && Spaces(2) == "  " && Spaces(3) == "   ";
    assert "\n"[1..] == "";
    assert " \n"[1..] == "\n";
    assert " \n  "[1..] == "\n  " && "\n  "[1..] == "  ";
    assert IsBlank("\n  ");
  }

  // ---------- Lists ----------

  /** What separates list items: a comma and a blank, except behind the last. */
  function SepText<T>(left: seq<T>, b: string, k: string): string {
    if |left| > 1 then "," + (b + k) else k
  }

  lemma PutSep<T>(left: seq<T>, b: string, r: string, k: seq<Token>)
    requires IsBlank(b) && Prints(r, k)
    ensures Prints(SepText(left, b, r), Sep(left, k))
    ensures Delimited(r) ==> Delimited(SepText(left, b, r))
  {
    PutPunctBlank(',', b, r, k);
  }

  function StrItemsText(xs: seq<string>, k: string): (t: string)
    ensures xs == [] ==> Delimited(t)
  {
    if xs == [] then "]" + k else Quoted(xs[0]) + SepText(xs, " ", StrItemsText(xs[1..], k))
  }

  function StrListText(xs: seq<string>, k: string): string {
    "[" + StrItemsText(xs, k)
  }

  lemma {:induction false} StrItemsPrint(xs: seq<string>, r: string, k: seq<Token>)
    requires Prints(r, k)
    ensures Prints(StrItemsText(xs, r), StrItems(xs, k))
  {
    if xs == [] {
      PutPunct(']', r, k);
    } else {
      StrItemsPrint(xs[1..], r, k);
      SmallBlanks();
      PutSep(xs, " ", StrItemsText(xs[1..], r), StrItems(xs[1..], k));
      PutQuoted(xs[0], SepText(xs, " ", StrItemsText(xs[1..], r)), Sep(xs, StrItems(xs[1..], k)));
    }
  }

  lemma StrListPrints(xs: seq<string>, r: string, k: seq<Token>)
    requires Prints(r, k)
    ensures Prints(StrListText(xs, r), StrListToks(xs, k))
  {
    StrItemsPrint(xs, r, k);
    PutPunct('[', StrItemsText(xs, r), StrItems(xs, k));
  }

  function IntItemsText(xs: seq<int>, k: string): (t: string)
    ensures xs == [] ==> Delimited(t)
  {
    if xs == [] then "]" + k else DecText(xs[0]) + SepText(xs, " ", IntItemsText(xs[1..], k))
  }

  function IntListText(xs: seq<int>, k: string): string {
    "[" + IntItemsText(xs, k)
  }

  lemma {:induction false} IntItemsPrint(xs: seq<int>, r: string, k: seq<Token>)
    requires Prints(r, k)
    ensures Prints(IntItemsText(xs, r), IntItems(xs, k))
  {
    if xs == [] {
      PutPunct(']', r, k);
    } else {
      IntItemsPrint(xs[1..], r, k);
      SmallBlanks();
      PutSep(xs, " ", IntItemsText(xs[1..], r), IntItems(xs[1..], k));
      PutDec(xs[0], SepText(xs, " ", IntItemsText(xs[1..], r)), Sep(xs, IntItems(xs[1..], k)));
    }
  }

  lemma IntListPrints(xs: seq<int>, r: string, k: seq<Token>)
    requires Prints(r, k)
    ensures Prints(IntListText(xs, r), IntListToks(xs, k))
  {
    IntItemsPrint(xs, r, k);
    PutPunct('[', IntItemsText(xs, r), IntItems(xs, k));
  }

  // ---------- Samples and columns ----------

  function EntryText(e: Sample, k: string): string {
    "(" + IntListText(e.vals, "," + (" " + StrListText(e.modi, "," + (" " + (DecText(e.code) + (")" + k))))))
  }

  lemma EntryPrints(e: Sample, r: string, k: seq<Token>)
    requires Prints(r, k)
    ensures Prints(EntryText(e, r), EntryToks(e, k))
  {
    SmallBlanks();
    PutPunct(')', r, k);
    var r3, k3 := DecText(e.code) + (")" + r), [Num(DecText(e.code))] + ([Punct(')')] + k);
    PutDec(e.code, ")" + r, [Punct(')')] + k);
    PutPunctBlank(',', " ", r3, k3);
    var r2, k2 := StrListText(e.modi, "," + (" " + r3)), StrListToks(e.modi, [COMMA] + k3);
    StrListPrints(e.modi, "," + (" " + r3), [COMMA] + k3);
    PutPunctBlank(',', " ", r2, k2);
    IntListPrints(e.vals, "," + (" " + r2), [COMMA] + k2);
    PutPunct('(', IntListText(e.vals, "," + (" " + r2)), IntListToks(e.vals, [COMMA] + k2));
  }

  function EntryItemsText(xs: seq<Sample>, k: string): string {
    if xs == [] then "]" + k else EntryText(xs[0], SepText(xs, "\n", EntryItemsText(xs[1..], k)))
  }

  function EntryListText(xs: seq<Sample>, k: string): string {
    "[" + EntryItemsText(xs, k)
  }

  lemma {:induction false} EntryItemsPrint(xs: seq<Sample>, r: string, k: seq<Token>)
    requires Prints(r, k)
    ensures Prints(EntryItemsText(xs, r), EntryItems(xs, k))
  {
    if xs == [] {
      PutPunct(']', r, k);
    } else {
      EntryItemsPrint(xs[1..], r, k);
      SmallBlanks();
      PutSep(xs, "\n", EntryItemsText(xs[1..], r), EntryItems(xs[1..], k));
      EntryPrints(xs[0], SepText(xs, "\n", EntryItemsText(xs[1..], r)), Sep(xs, EntryItems(xs[1..], k)));
    }
  }

  lemma EntryListPrints(xs: seq<Sample>, r: string, k: seq<Token>)
    requires Prints(r, k)
    ensures Prints(EntryListText(xs, r), EntryListToks(xs, k))
  {
    EntryItemsPrint(xs, r, k);
    PutPunct('[', EntryItemsText(xs, r), EntryItems(xs, k));
  }

  function ModiItemsText(xs: seq<(string, int)>, k: string): (t: string)
    ensures Delimited(t)
  {
    if xs == [] then "}" + k
    else Quoted(xs[0].0) + (":" + (" " + (DecText(xs[0].1) + SepText(xs, " ", ModiItemsText(xs[1..], k)))))
  }

  function ModiSetText(xs: seq<(string, int)>, k: string): string {
    "{" + ModiItemsText(xs, k)
  }

  lemma {:induction false} ModiItemsPrint(xs: seq<(string, int)>, r: string, k: seq<Token>)
    requires Prints(r, k)
    ensures Prints(ModiItemsText(xs, r), ModiItems(xs, k))
  {
    if xs == [] {
      PutPunct('}', r, k);
    } else {
      ModiItemsPrint(xs[1..], r, k);
      SmallBlanks();
      var r2, k2 := SepText(xs, " ", ModiItemsText(xs[1..], r)), Sep(xs, ModiItems(xs[1..], k));
      PutSep(xs, " ", ModiItemsText(xs[1..], r), ModiItems(xs[1..], k));
      PutDec(xs[0].1, r2, k2);
      PutPunctBlank(':', " ", DecText(xs[0].1) + r2, [Num(DecText(xs[0].1))] + k2);
      PutQuoted(xs[0].0, ":" + (" " + (DecText(xs[0].1) + r2)), [Punct(':')] + ([Num(DecText(xs[0].1))] + k2));
    }
  }

  lemma ModiSetPrints(xs: seq<(string, int)>, r: string, k: seq<Token>)
    requires Prints(r, k)
    ensures Prints(ModiSetText(xs, r), ModiSetToks(xs, k))
  {
    ModiItemsPrint(xs, r, k);
    PutPunct('{', ModiItemsText(xs, r), ModiItems(xs, k));
  }

  // ---------- Matrices ----------

  /** A cell without its padding. */
  ghost function CellText(x: real, hex: bool): string {
    NumeratorText(x, hex) + (if LeastDen(x) == 1 then "" else "/" + DecText(LeastDen(x)))
  }

  lemma NumeratorIsNum(x: real, hex: bool)
    ensures IsNumText(NumeratorText(x, hex))
  {
    DecRoundTrip(Numerator(x));
    HexRoundTrip(Numerator(x), 0);
  }

  lemma FractionPrints(num: string, den: string, r: string, k: seq<Token>)
    requires IsNumText(num) && IsNumText(den) && Delimited(r) && Prints(r, k)
    ensures Prints(num + r, [Num(num)] + k)
    ensures Prints((num + ("/" + den)) + r, [Num(num)] + ([Punct('/')] + ([Num(den)] + k)))
  {
    PutNum(num, r, k);
    PutNum(den, r, k);
    PutPunct('/', den + r, [Num(den)] + k);
    PutNum(num, "/" + (den + r), [Punct('/')] + ([Num(den)] + k));
    assert (num + ("/" + den)) + r == num + ("/" + (den + r));
  }

  lemma CellPrints(x: real, hex: bool, r: string, k: seq<Token>)
    requires Delimited(r) && Prints(r, k)
    ensures Prints(CellText(x, hex) + r, CellToks(x, hex, k))
  {
    NumeratorIsNum(x, hex);
    DecRoundTrip(LeastDen(x));
    FractionPrints(NumeratorText(x, hex), DecText(LeastDen(x)), r, k);
    assert NumeratorText(x, hex) + "" == NumeratorText(x, hex);
  }

  /** The width of the widest of the first `n` cells of a column. */
  ghost function ColumnWidth(rows: Mat, j: nat, hex: bool, n: nat): nat
    requires n <= |rows|
  {
    if n == 0 then 0
    else
      var w := ColumnWidth(rows, j, hex, n - 1);
      if j < |rows[n - 1]| && |CellText(rows[n - 1][j], hex)| > w then |CellText(rows[n - 1][j], hex)| else w
  }

  /** The blanks that bring a text to a width. */
  function Padding(text: string, width: nat): string {
    Spaces(if |text| < width then width - |text| else 0)
  }

  ghost function PaddedCell(rows: Mat, i: nat, j: nat, hex: bool): string
    requires i < |rows| && j < |rows[i]|
  {
    Padding(CellText(rows[i][j], hex), ColumnWidth(rows, j, hex, |rows|))
  }

  /** One more cell. */
  lemma {:induction false} WidthStep(rows: Mat, j: nat, hex: bool, n: nat) returns (w: nat, c: nat)
    requires 0 < n <= |rows| && j < |rows[n - 1]|
    ensures w == ColumnWidth(rows, j, hex, n - 1) && c == |CellText(rows[n - 1][j], hex)|
    ensures ColumnWidth(rows, j, hex, n) == if c > w then c else w
  {
    w, c := ColumnWidth(rows, j, hex, n - 1), |CellText(rows[n - 1][j], hex)|;
  }

  /** A column is as wide as its widest cell. */
  lemma {:induction false} CellFits(rows: Mat, i: nat, j: nat, hex: bool, n: nat)
    requires i < n <= |rows| && j < |rows[i]|
    ensures |CellText(rows[i][j], hex)| <= ColumnWidth(rows, j, hex, n)
  {
    if i < n - 1 {
      CellFits(rows, i, j, hex, n - 1);
      WidthGrows(rows, j, hex, n);
    } else {
      var w, c := WidthStep(rows, j, hex, n);
    }
  }

  lemma {:induction false} WidthGrows(rows: Mat, j: nat, hex: bool, n: nat)
    requires 0 < n <= |rows|
    ensures ColumnWidth(rows, j, hex, n - 1) <= ColumnWidth(rows, j, hex, n)
  {
  }

  /** The cells of a column end below each other. */
  lemma {:induction false} CellsAlign(rows: Mat, i: nat, k: nat, j: nat, hex: bool)
    requires i < |rows| && k < |rows| && j < |rows[i]| && j < |rows[k]|
    ensures |PaddedCell(rows, i, j, hex) + CellText(rows[i][j], hex)| ==
            |PaddedCell(rows, k, j, hex) + CellText(rows[k][j], hex)|
  {
    CellEnds(rows, i, j, hex);
    CellEnds(rows, k, j, hex);
  }

  lemma {:induction false} CellEnds(rows: Mat, i: nat, j: nat, hex: bool)
    requires i < |rows| && j < |rows[i]|
    ensures |PaddedCell(rows, i, j, hex) + CellText(rows[i][j], hex)| == ColumnWidth(rows, j, hex, |rows|)
  {
    CellFits(rows, i, j, hex, |rows|);
  }

  /** The widest cells are not padded. */
  lemma {:induction false} WidestCell(rows: Mat, j: nat, hex: bool, n: nat) returns (i: nat)
    requires 0 < n <= |rows| && forall k :: 0 <= k < |rows| ==> j < |rows[k]|
    ensures i < n && |CellText(rows[i][j], hex)| == ColumnWidth(rows, j, hex, n)
    ensures n == |rows| ==> PaddedCell(rows, i, j, hex) == ""
  {
    i := n - 1;
    if n > 1 && |CellText(rows[n - 1][j], hex)| <= ColumnWidth(rows, j, hex, n - 1) {
      i := WidestCell(rows, j, hex, n - 1);
    }
  }

  /** A row from column `j` on. */
  ghost function RowText(rows: Mat, i: nat, j: nat, hex: bool, k: string): (t: string)
    requires i < |rows| && j <= |rows[i]|
    ensures j == |rows[i]| ==> Delimited(t)
    decreases |rows[i]| - j
  {
    if j == |rows[i]| then "]" + k
    else
      var rest := SepText(rows[i][j..], " ", RowText(rows, i, j + 1, hex, k));
      PaddedCell(rows, i, j, hex) + (CellText(rows[i][j], hex) + rest)
  }

  lemma {:induction false} RowPrints(rows: Mat, i: nat, j: nat, hex: bool, r: string, k: seq<Token>)
    requires i < |rows| && j <= |rows[i]| && Prints(r, k)
    ensures Prints(RowText(rows, i, j, hex, r), RowItems(rows[i][j..], hex, k))
    decreases |rows[i]| - j
  {
    if j == |rows[i]| {
      PutPunct(']', r, k);
    } else {
      var left, x := rows[i][j..], rows[i][j];
      assert left[1..] == rows[i][j + 1..] && left[0] == x;
      var r1, k1 := RowText(rows, i, j + 1, hex, r), RowItems(rows[i][j + 1..], hex, k);
      RowPrints(rows, i, j + 1, hex, r, k);
      SmallBlanks();
      PutSep(left, " ", r1, k1);
      CellPrints(x, hex, SepText(left, " ", r1), Sep(left, k1));
      SpacesBlank(|PaddedCell(rows, i, j, hex)|);
      PutBlank(PaddedCell(rows, i, j, hex), CellText(x, hex) + SepText(left, " ", r1), CellToks(x, hex, Sep(left, k1)));
    }
  }

  function RowSepText(hex: bool, left: Mat, k: string): string {
    if hex || |left| > 1 then "," + ("\n" + k) else k
  }

  /** The rows from `i` on. */
  ghost function RowsText(rows: Mat, i: nat, hex: bool, k: string): string
    requires i <= |rows|
    decreases |rows| - i
  {
    if i == |rows| then "]" + k
    else "[" + RowText(rows, i, 0, hex, RowSepText(hex, rows[i..], RowsText(rows, i + 1, hex, k)))
  }

  lemma {:induction false} RowsPrint(rows: Mat, i: nat, hex: bool, r: string, k: seq<Token>)
    requires i <= |rows| && Prints(r, k)
    ensures Prints(RowsText(rows, i, hex, r), MatItems(rows[i..], hex, k))
    decreases |rows| - i
  {
    if i == |rows| {
      PutPunct(']', r, k);
    } else {
      var left := rows[i..];
      assert left[1..] == rows[i + 1..] && left[0] == rows[i] && rows[i][0..] == rows[i];
      var r1, k1 := RowsText(rows, i + 1, hex, r), MatItems(rows[i + 1..], hex, k);
      RowsPrint(rows, i + 1, hex, r, k);
      SmallBlanks();
      PutPunctBlank(',', "\n", r1, k1);
      var r2, k2 := RowSepText(hex, left, r1), RowSep(hex, left, k1);
      RowPrints(rows, i, 0, hex, r2, k2);
      PutPunct('[', RowText(rows, i, 0, hex, r2), RowItems(rows[i], hex, k2));
    }
  }

  /** What stands between the parentheses of a matrix. */
  ghost function BodyText(m: Matrix, hex: bool, k: string): string {
    if Shown(m) == EMPTY && !hex then "0" + ("," + (" " + ("0" + ("," + (" " + ("[" + ("]" + k)))))))
    else "[" + ("\n" + RowsText(Shown(m).rows, 0, hex, k))
  }

  ghost function MatrixText(m: Matrix, hex: bool, k: string): string {
    "Matrix" + ("(" + BodyText(m, hex, ")" + k))
  }

  lemma EmptyBodyPrints(r: string, k: seq<Token>)
    requires Prints(r, k)
    ensures Prints("0" + ("," + (" " + ("0" + ("," + (" " + ("[" + ("]" + r))))))), MatrixBody(EMPTY, false, k))
  {
    SmallBlanks();
    PutPunct(']', r, k);
    var r4, k4 := "[" + ("]" + r), [Punct('[')] + ([Punct(']')] + k);
    PutPunct('[', "]" + r, [Punct(']')] + k);
    PutPunctBlank(',', " ", r4, k4);
    var r2, k2 := "0" + ("," + (" " + r4)), [Num("0")] + ([COMMA] + k4);
    PutNum("0", "," + (" " + r4), [COMMA] + k4);
    PutPunctBlank(',', " ", r2, k2);
    PutNum("0", "," + (" " + r2), [COMMA] + k2);
  }

  lemma BodyPrints(m: Matrix, hex: bool, r: string, k: seq<Token>)
    requires Prints(r, k)
    ensures Prints(BodyText(m, hex, r), MatrixBody(m, hex, k))
  {
    if Shown(m) == EMPTY && !hex {
      EmptyBodyPrints(r, k);
    } else {
      var rows := Shown(m).rows;
      assert rows[0..] == rows;
      RowsPrint(rows, 0, hex, r, k);
      SmallBlanks();
      PutPunctBlank('[', "\n", RowsText(rows, 0, hex, r), MatItems(rows, hex, k));
    }
  }

  lemma MatrixPrints(m: Matrix, hex: bool, r: string, k: seq<Token>)
    requires Prints(r, k)
    ensures Prints(MatrixText(m, hex, r), MatrixToks(m, hex, k))
  {
    var k1 := [Punct(')')] + k;
    PutPunct(')', r, k);
    BodyPrints(m, hex, ")" + r, k1);
    PutPunct('(', BodyText(m, hex, ")" + r), MatrixBody(m, hex, k1));
    PutName("Matrix", "(" + BodyText(m, hex, ")" + r), [Punct('(')] + MatrixBody(m, hex, k1));
  }
}
