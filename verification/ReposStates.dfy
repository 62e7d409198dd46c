/**
 Saved encoders and repositories: what is printed, and that loading it gives the same repository.
 */
module ReposStates {
  import opened Wrappers
  import opened RationalMatrix
  import opened OrderedMaps
  import opened InsSamples
  import opened InsAssembler
  import opened SMVersion
  import opened ReposLexer
  import opened ReposNumbers
  import opened ReposTokenizer
  import opened ReposParser
  import opened ReposMatrices

  /** Addresses are 64-bit words. */
  const WORD: int := 0x1_0000_0000_0000_0000

  // ---------- Architectures ----------

  function ArchToks(arch: int, k: seq<Token>): seq<Token> {
    [Ident("CuSMVersion")] + ([Punct('(')] + ([Num(DecText(arch))] + ([Punct(')')] + k)))
  }

  method ParseCuSMVersion(tz: Tokenizer, ghost arch: int, ghost k: seq<Token>) returns (r: Result<int, ParseError>)
    requires tz.Valid()
    modifies tz
    ensures tz.Valid()
    ensures old(tz.At(ArchToks(arch, k))) && arch in SM_VERSIONS ==> r == Success(arch) && tz.At(k)
    ensures old(tz.current) != Ident("CuSMVersion") ==> r.Failure?
    ensures r.Success? ==> r.value in SM_VERSIONS && |tz.toks| < |old(tz.toks)|
  {
    ghost var k2 := [Punct(')')] + k;
    ghost var k1 := [Num(DecText(arch))] + k2;
    var name := tz.TakeIdent("CuSMVersion", [Punct('(')] + k1);
    if name.Failure? {
      return Failure(name.error);
    }
    var open := tz.TakePunct('(', k1);
    if open.Failure? {
      return Failure(open.error);
    }
    DecRoundTrip(arch);
    var version := tz.TakeInt(DecText(arch), arch, k2);
    if version.Failure? {
      return Failure(version.error);
    }
    var close := tz.TakePunct(')', k);
    if close.Failure? {
      return Failure(close.error);
    }
    return if version.value in SM_VERSIONS then Success(version.value) else Failure(BadArch);
  }

  // ---------- Records ----------

  /** The low 64 bits. */
  function ToWord(v: int): (w: nat)
    ensures 0 <= v < 0x1_0000_0000_0000_0000 ==> w == v
  {
    v % WORD
  }

  /** How many hexadecimal digits a code is padded to. */
  function CodeWidth(arch: int): nat {
    if arch / 10 <= 6 then 22 else 32
  }

  /** The code and the text, up to the closing parenthesis. */
  function CodeToks(i: InsInfo, arch: int, k: seq<Token>): seq<Token> {
    [Num(HexText(i.code, CodeWidth(arch)))] + ([COMMA] + ([Str(i.asmText)] + ([Punct(')')] + k)))
  }

  function InfoToks(i: InsInfo, arch: int, k: seq<Token>): seq<Token> {
    [Punct('(')] + ([Num(HexText(i.addr, 6))] + ([COMMA] + CodeToks(i, arch, k)))
  }

  method ParseCode(tz: Tokenizer, ghost i: InsInfo, ghost arch: int, ghost k: seq<Token>)
    returns (r: Result<(int, string), ParseError>)
    requires tz.Valid()
    modifies tz
    ensures tz.Valid()
    ensures old(tz.At(CodeToks(i, arch, k))) ==> r == Success((i.code, i.asmText)) && tz.At(k)
    ensures r.Success? ==> |tz.toks| < |old(tz.toks)|
  {
    HexRoundTrip(i.code, CodeWidth(arch));
    var code := tz.TakeIntComma(HexText(i.code, CodeWidth(arch)), i.code, [Str(i.asmText)] + ([Punct(')')] + k));
    if code.Failure? {
      return Failure(code.error);
    }
    var asmText := tz.TakeStr(i.asmText, [Punct(')')] + k);
    if asmText.Failure? {
      return Failure(asmText.error);
    }
    var close := tz.TakePunct(')', k);
    return if close.Success? then Success((code.value, asmText.value)) else Failure(close.error);
  }

  method ParseInfo(tz: Tokenizer, ghost i: InsInfo, ghost arch: int, ghost k: seq<Token>)
    returns (r: Result<InsInfo, ParseError>)
    requires tz.Valid()
    modifies tz
    ensures tz.Valid()
    ensures old(tz.At(InfoToks(i, arch, k))) && InfoFits(i) ==> r == Success(i) && tz.At(k)
    ensures r.Success? ==> |tz.toks| < |old(tz.toks)|
  {
    HexRoundTrip(i.addr, 6);
    var open := tz.TakePunct('(', [Num(HexText(i.addr, 6))] + ([COMMA] + CodeToks(i, arch, k)));
    if open.Failure? {
      return Failure(open.error);
    }
    var addr := tz.TakeIntComma(HexText(i.addr, 6), i.addr, CodeToks(i, arch, k));
    if addr.Failure? {
      return Failure(addr.error);
    }
    var code := ParseCode(tz, i, arch, k);
    if code.Failure? {
      return Failure(code.error);
    }
    return Success(InsInfo(ToWord(addr.value), code.value.0, code.value.1));
  }

  /** Addresses have at least 6 digits; codes have at least 22, or 32 from sm_70 on. */
  lemma InfoWidths(i: InsInfo, arch: int, k: seq<Token>)
    requires i.code >= 0
    ensures |InfoToks(i, arch, k)| > 3
    ensures var addr, code := InfoToks(i, arch, k)[1], InfoToks(i, arch, k)[3];
            && addr.Num? && |addr.digits| == 2 + Larger(6, |Digits(i.addr, 16)|)
            && code.Num? && |code.digits| == 2 + Larger(if arch < 70 then 22 else 32, |Digits(i.code, 16)|)
  {
  }

  function Larger(a: nat, b: nat): nat {
    if a >= b then a else b
  }

  predicate InfoFits(i: InsInfo) {
    i.addr < WORD && i.code >= 0
  }

  /** Every record is followed by a comma. */
  function InfoItems(xs: seq<InsInfo>, arch: int, k: seq<Token>): (t: seq<Token>)
    ensures t != [] && t[0] == if xs == [] then Punct(']') else Punct('(')
  {
    if xs == [] then [Punct(']')] + k else InfoToks(xs[0], arch, [COMMA] + InfoItems(xs[1..], arch, k))
  }

  function InfoListToks(xs: seq<InsInfo>, arch: int, k: seq<Token>): seq<Token> {
    [Punct('[')] + InfoItems(xs, arch, k)
  }

  predicate InfosFit(xs: seq<InsInfo>) {
    forall i :: 0 <= i < |xs| ==> InfoFits(xs[i])
  }

  method ParseInsInfoList(tz: Tokenizer, ghost xs: seq<InsInfo>, ghost arch: int, ghost k: seq<Token>)
    returns (r: Result<seq<InsInfo>, ParseError>)
    requires tz.Valid()
    modifies tz
    ensures tz.Valid()
    ensures old(tz.At(InfoListToks(xs, arch, k))) && InfosFit(xs) ==> r == Success(xs) && tz.At(k)
    ensures r.Success? ==> |tz.toks| < |old(tz.toks)|
  {
    ghost var good := tz.At(InfoListToks(xs, arch, k)) && InfosFit(xs);
    var open := tz.TakePunct('[', InfoItems(xs, arch, k));
    if open.Failure? {
      return Failure(open.error);
    }
    var out: seq<InsInfo> := [];
    ghost var left := xs;
    while tz.current != Punct(']')
      invariant tz.Valid()
      invariant good ==> tz.At(InfoItems(left, arch, k)) && InfosFit(left) && out + left == xs
      invariant |tz.toks| < |old(tz.toks)|
      decreases |tz.toks|
    {
      ghost var x, more := if left == [] then InsInfo(0, 0, "") else left[0], if left == [] then [] else left[1..];
      var t := ParseInfo(tz, x, arch, [COMMA] + InfoItems(more, arch, k));
      if t.Failure? {
        return Failure(t.error);
      }
      var c := tz.SkipComma(true, InfoItems(more, arch, k));
      if c.Failure? {
        return Failure(c.error);
      }
      MoveOne(out, left);
      out := out + [t.value];
      left := more;
    }
    NothingLeft(out, left);
    assert good ==> left == [];
    var close := tz.TakePunct(']', k);
    return if close.Success? then Success(out) else Failure(close.error);
  }

  function ErrItems(xs: seq<(int, InsInfo)>, arch: int, k: seq<Token>): (t: seq<Token>)
    ensures t != [] && if xs == [] then t[0] == Punct('}') else t[0].Num?
  {
    if xs == [] then [Punct('}')] + k
    else [Num(HexText(xs[0].0, 0))] + ([Punct(':')] + InfoToks(xs[0].1, arch, [COMMA] + ErrItems(xs[1..], arch, k)))
  }

  function ErrDictToks(xs: seq<(int, InsInfo)>, arch: int, k: seq<Token>): seq<Token> {
    [Punct('{')] + ErrItems(xs, arch, k)
  }

  predicate ErrsFit(xs: seq<(int, InsInfo)>) {
    forall i :: 0 <= i < |xs| ==> InfoFits(xs[i].1)
  }

  /** Entries with distinct keys, `done` of which are taken over. */
  ghost predicate Remaining<K(!new), V(!new)>(xs: seq<(K, V)>, done: seq<(K, V)>, left: seq<(K, V)>) {
    KeysDistinct(xs) && done + left == xs
  }

  lemma NextKeyIsNew<K(!new), V(!new)>(xs: seq<(K, V)>, done: seq<(K, V)>, left: seq<(K, V)>)
    requires Remaining(xs, done, left) && left != []
    ensures left[0].0 !in KeysOf(done) && Remaining(xs, done + [left[0]], left[1..])
  {
    assert xs[|done|] == left[0];
    forall i | 0 <= i < |done|
      ensures KeysOf(done)[i] != left[0].0
    {
      assert xs[i] == done[i];
    }
    MoveOne(done, left);
  }

  lemma NoneRemaining<K(!new), V(!new)>(xs: seq<(K, V)>, done: seq<(K, V)>)
    requires Remaining(xs, done, [])
    ensures done == xs
  {
    NothingLeft(done, []);
  }

  method ParseErrRecordsDict(tz: Tokenizer, ghost xs: seq<(int, InsInfo)>, ghost arch: int, ghost k: seq<Token>)
    returns (r: Result<seq<(int, InsInfo)>, ParseError>)
    requires tz.Valid()
    modifies tz
    ensures tz.Valid()
    ensures old(tz.At(ErrDictToks(xs, arch, k))) && ErrsFit(xs) && KeysDistinct(xs) ==> r == Success(xs) && tz.At(k)
    ensures r.Success? ==> |tz.toks| < |old(tz.toks)|
  {
    ghost var good := tz.At(ErrDictToks(xs, arch, k)) && ErrsFit(xs) && KeysDistinct(xs);
    var open := tz.TakePunct('{', ErrItems(xs, arch, k));
    if open.Failure? {
      return Failure(open.error);
    }
    var out := new OrderedMap<int, InsInfo>();
    ghost var left := xs;
    while tz.current != Punct('}')
      invariant tz.Valid() && out.Valid() && fresh(out)
      invariant good ==> tz.At(ErrItems(left, arch, k)) && ErrsFit(left) && Remaining(xs, out.entries, left)
      invariant |tz.toks| < |old(tz.toks)|
      decreases |tz.toks|
    {
      var t := ParseErrEntry(tz, left, arch, k);
      if t.Failure? {
        return Failure(t.error);
      }
      if good {
        NextKeyIsNew(xs, out.entries, left);
      }
      out.InsertOrAssign(t.value.0, t.value.1);
      left := if left == [] then [] else left[1..];
    }
    if good {
      NoneRemaining(xs, out.entries);
    }
    var close := tz.TakePunct('}', k);
    return if close.Success? then Success(out.entries) else Failure(close.error);
  }

  /** One record and the comma behind it. */
  method ParseErrEntry(tz: Tokenizer, ghost left: seq<(int, InsInfo)>, ghost arch: int, ghost k: seq<Token>)
    returns (r: Result<(int, InsInfo), ParseError>)
    requires tz.Valid()
    modifies tz
    ensures tz.Valid()
    ensures old(tz.At(ErrItems(left, arch, k))) && left != [] && ErrsFit(left) ==>
              r == Success(left[0]) && tz.At(ErrItems(left[1..], arch, k))
    ensures r.Success? ==> |tz.toks| < |old(tz.toks)|
  {
    ghost var x, more := if left == [] then (0, InsInfo(0, 0, "")) else left[0], if left == [] then [] else left[1..];
    ghost var rest := ErrItems(more, arch, k);
    HexRoundTrip(x.0, 0);
    var key := tz.TakeInt(HexText(x.0, 0), x.0, [Punct(':')] + InfoToks(x.1, arch, [COMMA] + rest));
    if key.Failure? {
      return Failure(key.error);
    }
    var colon := tz.TakePunct(':', InfoToks(x.1, arch, [COMMA] + rest));
    if colon.Failure? {
      return Failure(colon.error);
    }
    var info := ParseInfo(tz, x.1, arch, [COMMA] + rest);
    if info.Failure? {
      return Failure(info.error);
    }
    var c := tz.SkipComma(true, rest);
    return if c.Success? then Success((key.value, info.value)) else Failure(c.error);
  }

  // ---------- The fields of an encoder ----------

  /** All that is saved of one encoder. */
  datatype State = State(
    insKey: string,
    insRepos: seq<Sample>,
    insModiSet: seq<(string, int)>,
    valMatrix: Matrix,
    pSol: Matrix,
    pSolFac: int,
    valNullMat: Matrix,
    rhs: Matrix,
    insRecords: seq<InsInfo>,
    errRecords: seq<(int, InsInfo)>,
    arch: int)

  datatype Field =
    | InsKey(key: string)
    | InsRepos(entries: seq<Sample>)
    | InsModiSet(columns: seq<(string, int)>)
    | ValMatrix(m: Matrix)
    | PSol(m: Matrix)
    | PSolFac(fac: int)
    | ValNullMat(m: Matrix)
    | InsRecords(records: seq<InsInfo>)
    | ErrRecords(errs: seq<(int, InsInfo)>)
    | Rhs(m: Matrix)
    | Arch(version: int)

  function NameOf(f: Field): string {
    match f
    case InsKey(_) => "InsKey"
    case InsRepos(_) => "InsRepos"
    case InsModiSet(_) => "InsModiSet"
    case ValMatrix(_) => "ValMatrix"
    case PSol(_) => "PSol"
    case PSolFac(_) => "PSolFac"
    case ValNullMat(_) => "ValNullMat"
    case InsRecords(_) => "InsRecords"
    case ErrRecords(_) => "ErrRecords"
    case Rhs(_) => "Rhs"
    case Arch(_) => "Arch"
  }

  ghost function NullMatToks(m: Matrix, k: seq<Token>): seq<Token> {
    if m.rows == [] then [Ident("None")] + k else MatrixToks(m, false, k)
  }

  ghost function BodyToks(f: Field, arch: int, k: seq<Token>): seq<Token> {
    match f
    case InsKey(key) => [Str(key)] + k
    case InsRepos(entries) => EntryListToks(entries, k)
    case InsModiSet(columns) => ModiSetToks(columns, k)
    case ValMatrix(m) => MatrixToks(m, false, k)
    case PSol(m) => MatrixToks(m, true, k)
    case PSolFac(fac) => [Num(DecText(fac))] + k
    case ValNullMat(m) => NullMatToks(m, k)
    case InsRecords(records) => InfoListToks(records, arch, k)
    case ErrRecords(errs) => ErrDictToks(errs, arch, k)
    case Rhs(m) => MatrixToks(m, true, k)
    case Arch(version) => ArchToks(version, k)
  }

  /** Contents as every encoder has them. */
  ghost predicate FieldFits(f: Field) {
    match f
    case InsModiSet(columns) => Ascending(columns) && KeysDistinct(columns)
    case ValMatrix(m) => m.Valid() && m.Rational()
    case PSol(m) => m.Valid() && m.Rational()
    case ValNullMat(m) => m.Valid() && m.Rational()
    case InsRecords(records) => InfosFit(records)
    case ErrRecords(errs) => ErrsFit(errs) && KeysDistinct(errs)
    case Rhs(m) => m.Valid() && m.Rational()
    case Arch(version) => version in SM_VERSIONS
    case _ => true
  }

  /** The field that is read back. */
  function ShownField(f: Field): Field {
    match f
    case ValMatrix(m) => ValMatrix(Shown(m))
    case PSol(m) => PSol(Shown(m))
    case ValNullMat(m) => ValNullMat(Shown(m))
    case Rhs(m) => Rhs(Shown(m))
    case _ => f
  }

  method ParseNullMat(tz: Tokenizer, ghost m: Matrix, ghost k: seq<Token>) returns (r: Result<Matrix, ParseError>)
    requires tz.Valid()
    modifies tz
    ensures tz.Valid()
    ensures old(tz.At(NullMatToks(m, k))) && m.Valid() && m.Rational() ==> r == Success(Shown(m)) && tz.At(k)
    ensures r.Success? ==> |tz.toks| < |old(tz.toks)|
  {
    if tz.current == Ident("None") {
      var none := tz.TakeIdent("None", k);
      return if none.Success? then Success(EMPTY) else Failure(none.error);
    }
    r := ParseMatrix(tz, m, false, k);
  }

  function Mapped<T, U>(r: Result<T, ParseError>, f: T -> U): Result<U, ParseError> {
    match r
    case Success(v) => Success(f(v))
    case Failure(e) => Failure(e)
  }

  /** Reads the value of the field with this name. */
  method ParseField(tz: Tokenizer, name: string, ghost f: Field, ghost arch: int, ghost k: seq<Token>)
    returns (r: Result<Field, ParseError>)
    requires tz.Valid()
    modifies tz
    ensures tz.Valid()
    ensures old(tz.At(BodyToks(f, arch, k))) && NameOf(f) == name && FieldFits(f) ==>
            r == Success(ShownField(f)) && tz.At(k)
    ensures r.Success? ==> |tz.toks| < |old(tz.toks)|
  {
    if name == "InsKey" {
      var v := tz.TakeStr(if f.InsKey? then f.key else "", k);
      return Mapped(v, x => InsKey(x));
    }
    if name == "InsRepos" {
      var v := ParseInsReposList(tz, if f.InsRepos? then f.entries else [], k);
      return Mapped(v, x => InsRepos(x));
    }
    if name == "InsModiSet" {
      var v := ParseModiSetDict(tz, if f.InsModiSet? then f.columns else [], k);
      return Mapped(v, x => InsModiSet(x));
    }
    if name == "PSolFac" {
      ghost var fac := if f.PSolFac? then f.fac else 0;
      DecRoundTrip(fac);
      var v := tz.TakeInt(DecText(fac), fac, k);
      return Mapped(v, x => PSolFac(x));
    }
    if name == "InsRecords" {
      var v := ParseInsInfoList(tz, if f.InsRecords? then f.records else [], arch, k);
      return Mapped(v, x => InsRecords(x));
    }
    if name == "ErrRecords" {
      var v := ParseErrRecordsDict(tz, if f.ErrRecords? then f.errs else [], arch, k);
      return Mapped(v, x => ErrRecords(x));
    }
    if name == "Arch" {
      var v := ParseCuSMVersion(tz, if f.Arch? then f.version else 0, k);
      return Mapped(v, x => Arch(x));
    }
    r := ParseMatrixField(tz, name, f, arch, k);
  }

  /** Reads one of the matrices. */
  method ParseMatrixField(tz: Tokenizer, name: string, ghost f: Field, ghost arch: int, ghost k: seq<Token>)
    returns (r: Result<Field, ParseError>)
    requires tz.Valid()
    modifies tz
    ensures tz.Valid()
    ensures old(tz.At(BodyToks(f, arch, k))) && NameOf(f) == name &&
            (f.ValMatrix? || f.PSol? || f.ValNullMat? || f.Rhs?) && FieldFits(f) ==>
              r == Success(ShownField(f)) && tz.At(k)
    ensures r.Success? ==> |tz.toks| < |old(tz.toks)|
  {
    if name == "ValMatrix" {
      var v := ParseMatrix(tz, if f.ValMatrix? then f.m else EMPTY, false, k);
      return Mapped(v, x => ValMatrix(x));
    }
    if name == "PSol" {
      var v := ParseMatrix(tz, if f.PSol? then f.m else EMPTY, true, k);
      return Mapped(v, x => PSol(x));
    }
    if name == "ValNullMat" {
      var v := ParseNullMat(tz, if f.ValNullMat? then f.m else EMPTY, k);
      return Mapped(v, x => ValNullMat(x));
    }
    if name == "Rhs" {
      var v := ParseMatrix(tz, if f.Rhs? then f.m else EMPTY, true, k);
      return Mapped(v, x => Rhs(x));
    }
    return Failure(UnknownField);
  }
}
