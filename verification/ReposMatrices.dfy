/** Matrices of rationals as the repository file writes and reads them. */
module ReposMatrices {
  import opened Wrappers
  import opened LinearAlgebra
  import opened Rationals
  import opened RationalMatrix
  import opened ReposLexer
  import opened ReposNumbers
  import opened ReposTokenizer
  import opened ReposParser

  // ---------- Cells ----------

  lemma {:induction false} LeastDenominator(x: real, bound: int)
    requires Clears(bound, x)
    ensures exists d: int :: Clears(d, x) && forall e: int :: 1 <= e < d ==> !Clears(e, x)
    decreases bound
  {
    if e: int :| 1 <= e < bound && Clears(e, x) {
      LeastDenominator(x, e);
    }
  }

  /** The least positive denominator; 1 for numbers that have none. */
  ghost function LeastDen(x: real): (d: int)
    ensures d >= 1
    ensures IsRational(x) ==> Clears(d, x) && forall e: int :: 1 <= e < d ==> !Clears(e, x)
  {
    if IsRational(x) then
      var bound: int :| Clears(bound, x);
      LeastDenominator(x, bound);
      var d: int :| Clears(d, x) && forall e: int :: 1 <= e < d ==> !Clears(e, x);
      d
    else 1
  }

  /** The numerator in lowest terms. */
  ghost function Numerator(x: real): int {
    Times(x, LeastDen(x) as real).Floor
  }

  lemma DenominatorOfInteger(n: int)
    ensures IsRational(n as real) && LeastDen(n as real) == 1 && Numerator(n as real) == n
  {
    IntegerIsRational(n);
    assert Times(n as real, 1 as real) == n as real;
    assert Clears(1, n as real);
  }

  /** Numerator over denominator is the number again. */
  lemma CellValue(x: real)
    requires IsRational(x)
    ensures Numerator(x) as real / LeastDen(x) as real == x
    ensures LeastDen(x) == 1 ==> Numerator(x) as real == x
  {
    var d := LeastDen(x);
    QuotientOfProduct(x, d as real, Numerator(x) as real);
  }

  lemma QuotientOfProduct(x: real, d: real, n: real)
    requires d > 0.0 && Times(x, d) == n
    ensures n / d == x
  {
  }

  predicate NotSlash(k: seq<Token>) {
    k != [] && k[0] != Punct('/')
  }

  /** The text of the numerator, as it stands in a cell. */
  ghost function NumeratorText(x: real, hex: bool): string {
    if LeastDen(x) == 1 && hex then HexText(Numerator(x), 0) else DecText(Numerator(x))
  }

  ghost function DenToks(x: real, k: seq<Token>): seq<Token> {
    if LeastDen(x) == 1 then k else [Punct('/')] + ([Num(DecText(LeastDen(x)))] + k)
  }

  /** An integer is printed alone, in the base of its matrix; other rationals as decimal fractions. */
  ghost function CellToks(x: real, hex: bool, k: seq<Token>): (t: seq<Token>)
    ensures t != [] && t[0].Num?
  {
    [Num(NumeratorText(x, hex))] + DenToks(x, k)
  }

  lemma NumeratorRead(x: real, hex: bool)
    ensures ParseBigInt(NumeratorText(x, hex)) == Some(Numerator(x))
  {
    DecRoundTrip(Numerator(x));
    HexRoundTrip(Numerator(x), 0);
  }

  method ParseNumberOrFraction(tz: Tokenizer, ghost x: real, ghost hex: bool, ghost k: seq<Token>)
    returns (r: Result<real, ParseError>)
    requires tz.Valid()
    modifies tz
    ensures tz.Valid()
    ensures old(tz.At(CellToks(x, hex, k))) && IsRational(x) && NotSlash(k) ==> r == Success(x) && tz.At(k)
    ensures r.Success? ==> |tz.toks| < |old(tz.toks)|
  {
    ghost var good := tz.At(CellToks(x, hex, k)) && IsRational(x) && NotSlash(k);
    ghost var d := LeastDen(x);
    NumeratorRead(x, hex);
    if IsRational(x) {
      CellValue(x);
    }
    var num := tz.TakeInt(NumeratorText(x, hex), Numerator(x), DenToks(x, k));
    if num.Failure? {
      return Failure(num.error);
    }
    assert good ==> (tz.current == Punct('/') <==> d != 1);
    if tz.current == Punct('/') {
      var den := ParseDenominator(tz, d, k);
      if den.Failure? {
        return Failure(den.error);
      }
      return Success(num.value as real / den.value as real);
    }
    return Success(num.value as real);
  }

  method ParseDenominator(tz: Tokenizer, ghost d: int, ghost k: seq<Token>) returns (r: Result<int, ParseError>)
    requires tz.Valid()
    modifies tz
    ensures tz.Valid()
    ensures old(tz.At([Punct('/')] + ([Num(DecText(d))] + k))) && d != 0 ==> r == Success(d) && tz.At(k)
    ensures r.Success? ==> r.value != 0 && |tz.toks| < |old(tz.toks)|
  {
    DecRoundTrip(d);
    var slash := tz.TakePunct('/', [Num(DecText(d))] + k);
    if slash.Failure? {
      return Failure(slash.error);
    }
    r := tz.TakeInt(DecText(d), d, k);
    if r == Success(0) {
      return Failure(BadNumber);
    }
  }

  // ---------- Rows ----------

  ghost function RowItems(xs: Vec, hex: bool, k: seq<Token>): (t: seq<Token>)
    ensures t != [] && if xs == [] then t[0] == Punct(']') else t[0].Num?
  {
    if xs == [] then [Punct(']')] + k else CellToks(xs[0], hex, Sep(xs, RowItems(xs[1..], hex, k)))
  }

  method ParseRow(tz: Tokenizer, ghost xs: Vec, ghost hex: bool, ghost k: seq<Token>)
    returns (r: Result<Vec, ParseError>)
    requires tz.Valid()
    modifies tz
    ensures tz.Valid()
    ensures old(tz.At([Punct('[')] + RowItems(xs, hex, k))) && VecRational(xs) ==> r == Success(xs) && tz.At(k)
    ensures r.Success? ==> |tz.toks| < |old(tz.toks)|
  {
    ghost var good := tz.At([Punct('[')] + RowItems(xs, hex, k)) && VecRational(xs);
    var open := tz.TakePunct('[', RowItems(xs, hex, k));
    if open.Failure? {
      return Failure(open.error);
    }
    var out: Vec := [];
    ghost var left := xs;
    while tz.current != Punct(']')
      invariant tz.Valid()
      invariant good ==> tz.At(RowItems(left, hex, k)) && VecRational(left) && out + left == xs
      invariant |tz.toks| < |old(tz.toks)|
      decreases |tz.toks|
    {
      ghost var x, more := if left == [] then 0.0 else left[0], if left == [] then [] else left[1..];
      var t := ParseNumberOrFraction(tz, x, hex, Sep(left, RowItems(more, hex, k)));
      if t.Failure? {
        return Failure(t.error);
      }
      var c := tz.SkipComma(|left| > 1, RowItems(more, hex, k));
      if c.Failure? {
        return Failure(c.error);
      }
      MoveOne(out, left);
      out := out + [t.value];
      left := more;
    }
    NothingLeft(out, left);
    assert good ==> left == [];
    var close := tz.TakePunct(']', k);
    return if close.Success? then Success(out) else Failure(close.error);
  }

  // ---------- Matrices ----------

  /** Hexadecimal matrices end every row with a comma, decimal ones all but the last. */
  function RowSep(hex: bool, left: Mat, k: seq<Token>): seq<Token> {
    if hex || |left| > 1 then [COMMA] + k else k
  }

  ghost function MatItems(rows: Mat, hex: bool, k: seq<Token>): (t: seq<Token>)
    ensures t != [] && t[0] == if rows == [] then Punct(']') else Punct('[')
  {
    if rows == [] then [Punct(']')] + k
    else [Punct('[')] + RowItems(rows[0], hex, RowSep(hex, rows, MatItems(rows[1..], hex, k)))
  }

  method ParseRows(tz: Tokenizer, ghost rows: Mat, ghost hex: bool, ghost k: seq<Token>)
    returns (r: Result<Mat, ParseError>)
    requires tz.Valid()
    modifies tz
    ensures tz.Valid()
    ensures old(tz.At([Punct('[')] + MatItems(rows, hex, k))) && MatRational(rows) ==> r == Success(rows) && tz.At(k)
    ensures r.Success? ==> |tz.toks| < |old(tz.toks)|
  {
    ghost var good := tz.At([Punct('[')] + MatItems(rows, hex, k)) && MatRational(rows);
    var open := tz.TakePunct('[', MatItems(rows, hex, k));
    if open.Failure? {
      return Failure(open.error);
    }
    var out: Mat := [];
    ghost var left := rows;
    while tz.current != Punct(']')
      invariant tz.Valid()
      invariant good ==> tz.At(MatItems(left, hex, k)) && MatRational(left) && out + left == rows
      invariant |tz.toks| < |old(tz.toks)|
      decreases |tz.toks|
    {
      ghost var x, more := if left == [] then [] else left[0], if left == [] then [] else left[1..];
      var t := ParseRow(tz, x, hex, RowSep(hex, left, MatItems(more, hex, k)));
      if t.Failure? {
        return Failure(t.error);
      }
      var c := tz.SkipComma(hex || |left| > 1, MatItems(more, hex, k));
      if c.Failure? {
        return Failure(c.error);
      }
      MoveOne(out, left);
      out := out + [t.value];
      left := more;
    }
    NothingLeft(out, left);
    assert good ==> left == [];
    var close := tz.TakePunct(']', k);
    return if close.Success? then Success(out) else Failure(close.error);
  }

  /** The matrix that is read back: one without entries comes back as the unset matrix. */
  function Shown(m: Matrix): Matrix {
    if m.rows == [] || m.cols == 0 then EMPTY else m
  }

  /** What stands between the parentheses. */
  ghost function MatrixBody(m: Matrix, hex: bool, k: seq<Token>): seq<Token> {
    if Shown(m) == EMPTY && !hex then
      [Num("0")] + ([COMMA] + ([Num("0")] + ([COMMA] + ([Punct('[')] + ([Punct(']')] + k)))))
    else [Punct('[')] + MatItems(Shown(m).rows, hex, k)
  }

  ghost function MatrixToks(m: Matrix, hex: bool, k: seq<Token>): seq<Token> {
    [Ident("Matrix")] + ([Punct('(')] + MatrixBody(m, hex, [Punct(')')] + k))
  }

  /** All rows take the length of the first; a shorter one has no entries to offer. */
  method FromRows(rows: Mat) returns (r: Result<Matrix, ParseError>)
    ensures rows == [] ==> r == Success(EMPTY)
    ensures rows != [] && IsMat(rows, |rows[0]|) ==> r == Success(Matrix(|rows[0]|, rows))
    ensures r.Success? ==> r.value.Valid()
  {
    if rows == [] {
      return Success(EMPTY);
    }
    var out: Mat := [];
    for i := 0 to |rows|
      invariant IsMat(out, |rows[0]|)
      invariant |out| == i && (IsMat(rows, |rows[0]|) ==> forall j :: 0 <= j < i ==> out[j] == rows[j])
    {
      if |rows[i]| < |rows[0]| {
        return Failure(BadNumber);
      }
      out := out + [rows[i][..|rows[0]|]];
    }
    assert IsMat(rows, |rows[0]|) ==> out == rows;
    return Success(Matrix(|rows[0]|, out));
  }

  method ParseEmptyBody(tz: Tokenizer, ghost k: seq<Token>) returns (r: Result<(), ParseError>)
    requires tz.Valid() && tz.current.Num?
    modifies tz
    ensures tz.Valid()
    ensures old(tz.At(MatrixBody(EMPTY, false, k))) ==> r == Success(()) && tz.At(k)
    ensures r.Success? ==> |tz.toks| < |old(tz.toks)|
  {
    ghost var k4 := [Punct('[')] + ([Punct(']')] + k);
    ghost var k2 := [Num("0")] + ([COMMA] + k4);
    var rows := tz.Take(Num("0"), [COMMA] + k2);
    if rows.Failure? {
      return Failure(rows.error);
    }
    var c1 := tz.TakePunct(',', k2);
    if c1.Failure? {
      return c1;
    }
    var cols := tz.Take(Num("0"), [COMMA] + k4);
    if cols.Failure? {
      return Failure(cols.error);
    }
    var c2 := tz.TakePunct(',', k4);
    if c2.Failure? {
      return c2;
    }
    var open := tz.TakePunct('[', [Punct(']')] + k);
    if open.Failure? {
      return open;
    }
    r := tz.TakePunct(']', k);
  }

  method ParseMatrix(tz: Tokenizer, ghost m: Matrix, ghost hex: bool, ghost k: seq<Token>)
    returns (r: Result<Matrix, ParseError>)
    requires tz.Valid()
    modifies tz
    ensures tz.Valid()
    ensures old(tz.At(MatrixToks(m, hex, k))) && m.Valid() && m.Rational() ==> r == Success(Shown(m)) && tz.At(k)
    ensures r.Success? ==> |tz.toks| < |old(tz.toks)|
  {
    ghost var good := tz.At(MatrixToks(m, hex, k)) && m.Valid() && m.Rational();
    ghost var k1 := [Punct(')')] + k;
    var name := tz.TakeIdent("Matrix", [Punct('(')] + MatrixBody(m, hex, k1));
    if name.Failure? {
      return Failure(name.error);
    }
    var open := tz.TakePunct('(', MatrixBody(m, hex, k1));
    if open.Failure? {
      return Failure(open.error);
    }
    var rows: Mat := [];
    if tz.current.Num? {
      var empty := ParseEmptyBody(tz, k1);
      if empty.Failure? {
        return Failure(empty.error);
      }
    } else {
      var read := ParseRows(tz, Shown(m).rows, hex, k1);
      if read.Failure? {
        return Failure(read.error);
      }
      rows := read.value;
    }
    var close := tz.TakePunct(')', k);
    if close.Failure? {
      return Failure(close.error);
    }
    r := FromRows(rows);
  }
}
