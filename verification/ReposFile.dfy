/** Reading back whole encoders and repositories. */
module ReposFile {
  import opened Wrappers
  import opened RationalMatrix
  import opened OrderedMaps
  import opened SMVersion
  import opened ReposLexer
  import opened ReposTokenizer
  import opened ReposParser
  import opened ReposStates

  // ---------- One encoder ----------

  /** What is set before any field is read. */
  const UNSET := State("", [], [], EMPTY, EMPTY, 1, EMPTY, EMPTY, [], [], 0)

  function SetField(s: State, f: Field): State {
    match f
    case InsKey(key) => s.(insKey := key)
    case InsRepos(entries) => s.(insRepos := entries)
    case InsModiSet(columns) => s.(insModiSet := columns)
    case ValMatrix(m) => s.(valMatrix := m)
    case PSol(m) => s.(pSol := m)
    case PSolFac(fac) => s.(pSolFac := fac)
    case ValNullMat(m) => s.(valNullMat := m)
    case InsRecords(records) => s.(insRecords := records)
    case ErrRecords(errs) => s.(errRecords := errs)
    case Rhs(m) => s.(rhs := m)
    case Arch(version) => s.(arch := version)
  }

  /** Sets the first fields to what is read back of them. */
  function SetFirst(s: State, fs: seq<Field>, n: nat): State
    requires n <= |fs|
  {
    if n == 0 then s else SetField(SetFirst(s, fs, n - 1), ShownField(fs[n - 1]))
  }

  lemma SetNext(s: State, fs: seq<Field>, n: nat, before: State, shown: Field)
    requires n < |fs| && SetFirst(s, fs, n) == before && ShownField(fs[n]) == shown
    ensures SetFirst(s, fs, n + 1) == SetField(before, shown)
  {
  }

  /** Eleven fields in this order set the whole state. */
  lemma FieldsMakeState(s: State, fs: seq<Field>)
    requires |fs| == 11
    requires ShownField(fs[0]) == InsKey(s.insKey) && ShownField(fs[1]) == InsRepos(s.insRepos)
    requires ShownField(fs[2]) == InsModiSet(s.insModiSet) && ShownField(fs[3]) == ValMatrix(s.valMatrix)
    requires ShownField(fs[4]) == PSol(s.pSol) && ShownField(fs[5]) == PSolFac(s.pSolFac)
    requires ShownField(fs[6]) == ValNullMat(s.valNullMat) && ShownField(fs[7]) == InsRecords(s.insRecords)
    requires ShownField(fs[8]) == ErrRecords(s.errRecords) && ShownField(fs[9]) == Rhs(s.rhs)
    requires ShownField(fs[10]) == Arch(s.arch)
    ensures SetFirst(UNSET, fs, 11) == s
  {
    SetNext(UNSET, fs, 0, UNSET, InsKey(s.insKey));
    var s1 := UNSET.(insKey := s.insKey);
    SetNext(UNSET, fs, 1, s1, InsRepos(s.insRepos));
    var s2 := s1.(insRepos := s.insRepos);
    SetNext(UNSET, fs, 2, s2, InsModiSet(s.insModiSet));
    var s3 := s2.(insModiSet := s.insModiSet);
    SetNext(UNSET, fs, 3, s3, ValMatrix(s.valMatrix));
    var s4 := s3.(valMatrix := s.valMatrix);
    SetNext(UNSET, fs, 4, s4, PSol(s.pSol));
    var s5 := s4.(pSol := s.pSol);
    SetNext(UNSET, fs, 5, s5, PSolFac(s.pSolFac));
    var s6 := s5.(pSolFac := s.pSolFac);
    SetNext(UNSET, fs, 6, s6, ValNullMat(s.valNullMat));
    var s7 := s6.(valNullMat := s.valNullMat);
    SetNext(UNSET, fs, 7, s7, InsRecords(s.insRecords));
    var s8 := s7.(insRecords := s.insRecords);
    SetNext(UNSET, fs, 8, s8, ErrRecords(s.errRecords));
    var s9 := s8.(errRecords := s.errRecords);
    SetNext(UNSET, fs, 9, s9, Rhs(s.rhs));
    SetNext(UNSET, fs, 10, s9.(rhs := s.rhs), Arch(s.arch));
  }

  ghost function FieldItems(fs: seq<Field>, arch: int, k: seq<Token>): (t: seq<Token>)
    ensures t != [] && if fs == [] then t[0] == Punct('}') else t[0].Str?
  {
    if fs == [] then [Punct('}')] + k
    else [Str(NameOf(fs[0]))] + ([Punct(':')] + BodyToks(fs[0], arch, Sep(fs, FieldItems(fs[1..], arch, k))))
  }

  ghost predicate FieldsFit(fs: seq<Field>) {
    forall i :: 0 <= i < |fs| ==> FieldFits(fs[i])
  }

  /** One field and the comma behind it. */
  method ParseEntry(tz: Tokenizer, ghost left: seq<Field>, ghost arch: int, ghost k: seq<Token>)
    returns (r: Result<Field, ParseError>)
    requires tz.Valid()
    modifies tz
    ensures tz.Valid()
    ensures old(tz.At(FieldItems(left, arch, k))) && left != [] && FieldsFit(left) ==>
              r == Success(ShownField(left[0])) && tz.At(FieldItems(left[1..], arch, k))
    ensures r.Success? ==> |tz.toks| < |old(tz.toks)|
  {
    ghost var f, more := if left == [] then PSolFac(0) else left[0], if left == [] then [] else left[1..];
    ghost var rest := Sep(left, FieldItems(more, arch, k));
    var name := tz.TakeStr(NameOf(f), [Punct(':')] + BodyToks(f, arch, rest));
    if name.Failure? {
      return Failure(name.error);
    }
    var colon := tz.TakePunct(':', BodyToks(f, arch, rest));
    if colon.Failure? {
      return Failure(colon.error);
    }
    r := ParseField(tz, name.value, f, arch, rest);
    if r.Failure? {
      return;
    }
    var c := tz.SkipComma(|left| > 1, FieldItems(more, arch, k));
    if c.Failure? {
      return Failure(c.error);
    }
  }

  /** The first `n` fields are set, and the others still to come. */
  ghost predicate SetSoFar(fs: seq<Field>, n: nat, out: State, archSeen: bool, left: seq<Field>) {
    && n <= |fs| && left == fs[n..] && out == SetFirst(UNSET, fs, n)
    && (archSeen <==> exists i :: 0 <= i < n && fs[i].Arch?)
  }

  /** `SetSoFar` for some number of fields; stated so that it unfolds only where `FieldFits` is used. */
  ghost predicate SetAhead(fs: seq<Field>, out: State, archSeen: bool, left: seq<Field>) {
    |left| <= |fs| && forall f: Field {:trigger FieldFits(f)} :: SetSoFar(fs, |fs| - |left|, out, archSeen, left)
  }

  lemma SetStart(fs: seq<Field>)
    ensures SetAhead(fs, UNSET, false, fs)
  {
  }

  lemma SetStep(fs: seq<Field>, out: State, archSeen: bool, left: seq<Field>, shown: Field)
    requires SetAhead(fs, out, archSeen, left) && left != [] && shown == ShownField(left[0])
    ensures SetAhead(fs, SetField(out, shown), archSeen || shown.Arch?, left[1..])
  {
    assert FieldFits(left[0]) || !FieldFits(left[0]);
    assert SetSoFar(fs, |fs| - |left| + 1, SetField(out, shown), archSeen || shown.Arch?, left[1..]);
  }

  lemma SetDone(fs: seq<Field>, out: State, archSeen: bool)
    requires SetAhead(fs, out, archSeen, [])
    ensures out == SetFirst(UNSET, fs, |fs|) && (archSeen <==> exists i :: 0 <= i < |fs| && fs[i].Arch?)
  {
    assert FieldFits(PSolFac(1));
  }

  method ParseFields(tz: Tokenizer, ghost fs: seq<Field>, ghost arch: int, ghost k: seq<Token>)
    returns (r: Result<State, ParseError>)
    requires tz.Valid()
    modifies tz
    ensures tz.Valid()
    ensures old(tz.At(FieldItems(fs, arch, k))) && FieldsFit(fs) && (exists i :: 0 <= i < |fs| && fs[i].Arch?) ==>
              r == Success(SetFirst(UNSET, fs, |fs|)) && tz.At(k)
    ensures r.Success? ==> |tz.toks| < |old(tz.toks)|
  {
    var out, archSeen := UNSET, false;
    ghost var left := fs;
    ghost var good := tz.At(FieldItems(fs, arch, k)) && FieldsFit(fs);
    SetStart(fs);
    while tz.current != Punct('}')
      invariant tz.Valid()
      invariant good ==> tz.At(FieldItems(left, arch, k)) && FieldsFit(left) && SetAhead(fs, out, archSeen, left)
      invariant |tz.toks| <= |old(tz.toks)|
      decreases |tz.toks|
    {
      var t := ParseEntry(tz, left, arch, k);
      if t.Failure? {
        return Failure(t.error);
      }
      if good {
        SetStep(fs, out, archSeen, left, t.value);
      }
      out, archSeen := SetField(out, t.value), archSeen || t.value.Arch?;
      left := if left == [] then [] else left[1..];
    }
    if good {
      SetDone(fs, out, archSeen);
    }
    var close := tz.TakePunct('}', k);
    if close.Failure? {
      return Failure(close.error);
    }
    return if archSeen then Success(out) else Failure(MissingArch);
  }

  /** What the text of an encoder says: its fields, and the architecture that codes are padded for. */
  datatype Saved = Saved(fields: seq<Field>, arch: int)

  ghost function EncoderToks(e: Saved, k: seq<Token>): seq<Token> {
    [Ident("CuInsAssembler")] + ([Punct('(')] + ([Str("")] + ([COMMA] + ([Punct('{')]
      + FieldItems(e.fields, e.arch, [Punct(')')] + k)))))
  }

  /** The fields have proper contents, and one of them is the architecture. */
  ghost predicate Readable(e: Saved) {
    FieldsFit(e.fields) && exists i :: 0 <= i < |e.fields| && e.fields[i].Arch?
  }

  /** The state that the fields set, the last one of a name winning. */
  ghost function ReadBack(e: Saved): State {
    SetFirst(UNSET, e.fields, |e.fields|)
  }

  /** Reads an encoder, whatever its fields and their order. */
  method ParseCuInsAssembler(tz: Tokenizer, ghost e: Saved, ghost k: seq<Token>) returns (r: Result<State, ParseError>)
    requires tz.Valid()
    modifies tz
    ensures tz.Valid()
    ensures old(tz.At(EncoderToks(e, k))) && Readable(e) ==> r == Success(ReadBack(e)) && tz.At(k)
    ensures r.Success? ==> |tz.toks| < |old(tz.toks)|
  {
    ghost var k3 := FieldItems(e.fields, e.arch, [Punct(')')] + k);
    ghost var k1 := [Str("")] + ([COMMA] + ([Punct('{')] + k3));
    var name := tz.TakeIdent("CuInsAssembler", [Punct('(')] + k1);
    if name.Failure? {
      return Failure(name.error);
    }
    var open := tz.TakePunct('(', k1);
    if open.Failure? {
      return Failure(open.error);
    }
    var placeholder := tz.TakeStr("", [COMMA] + ([Punct('{')] + k3));
    if placeholder.Failure? {
      return Failure(placeholder.error);
    }
    var c := tz.TakePunct(',', [Punct('{')] + k3);
    if c.Failure? {
      return Failure(c.error);
    }
    var brace := tz.TakePunct('{', k3);
    if brace.Failure? {
      return Failure(brace.error);
    }
    r := ParseFields(tz, e.fields, e.arch, [Punct(')')] + k);
    if r.Failure? {
      return;
    }
    var close := tz.TakePunct(')', k);
    if close.Failure? {
      return Failure(close.error);
    }
  }

  // ---------- A repository ----------

  ghost predicate DictFits(xs: seq<(string, Saved)>) {
    forall i :: 0 <= i < |xs| ==> Readable(xs[i].1)
  }

  ghost predicate ReposFits(xs: seq<(string, Saved)>, arch: Option<int>) {
    DictFits(xs) && KeysDistinct(xs) && (arch.Some? ==> arch.value in SM_VERSIONS)
  }

  ghost function ReadDict(xs: seq<(string, Saved)>): (states: seq<(string, State)>)
    ensures |states| == |xs| && forall i :: 0 <= i < |xs| ==> states[i] == (xs[i].0, ReadBack(xs[i].1))
  {
    seq(|xs|, i requires 0 <= i < |xs| => (xs[i].0, ReadBack(xs[i].1)))
  }

  ghost function DictItems(xs: seq<(string, Saved)>, k: seq<Token>): (t: seq<Token>)
    ensures t != [] && if xs == [] then t[0] == Punct('}') else t[0].Str?
  {
    if xs == [] then [Punct('}')] + k
    else [Str(xs[0].0)] + ([Punct(':')] + EncoderToks(xs[0].1, Sep(xs, DictItems(xs[1..], k))))
  }

  function ReposArchToks(arch: Option<int>, k: seq<Token>): seq<Token> {
    var k2 := if arch.Some? then ArchToks(arch.value, [Punct(')')] + k) else [Ident("None")] + ([Punct(')')] + k);
    [COMMA] + ([Ident("arch")] + ([Punct('=')] + k2))
  }

  /** A whole saved repository. */
  ghost function ReposToks(xs: seq<(string, Saved)>, arch: Option<int>): seq<Token> {
    [Ident("CuInsAssemblerRepos")] + ([Punct('(')] + ([Punct('{')] + DictItems(xs, ReposArchToks(arch, [End]))))
  }

  /** The entries taken over, and those still to come; stated so that it unfolds only where `ReadDict(left)` is used. */
  ghost predicate DictSoFar(xs: seq<(string, Saved)>, done: seq<(string, State)>, left: seq<(string, Saved)>) {
    forall l: seq<(string, Saved)> {:trigger ReadDict(l)} :: l == left ==>
      DictFits(l) && Remaining(ReadDict(xs), done, ReadDict(l))
  }

  lemma DictStart(xs: seq<(string, Saved)>)
    requires KeysDistinct(xs) && DictFits(xs)
    ensures DictSoFar(xs, [], xs)
  {
    assert [] + ReadDict(xs) == ReadDict(xs);
  }

  lemma DictStep(xs: seq<(string, Saved)>, done: seq<(string, State)>, left: seq<(string, Saved)>,
                 shown: (string, State))
    requires DictSoFar(xs, done, left) && left != [] && shown == (left[0].0, ReadBack(left[0].1))
    ensures Readable(left[0].1) && shown.0 !in KeysOf(done) && DictSoFar(xs, done + [shown], left[1..])
  {
    NextKeyIsNew(ReadDict(xs), done, ReadDict(left));
    assert ReadDict(left)[1..] == ReadDict(left[1..]);
  }

  lemma DictDone(xs: seq<(string, Saved)>, done: seq<(string, State)>)
    requires DictSoFar(xs, done, [])
    ensures done == ReadDict(xs)
  {
    assert ReadDict([]) == [];
    NoneRemaining(ReadDict(xs), done);
  }

  /** One key, its encoder and the comma behind it. */
  method ParseDictEntry(tz: Tokenizer, ghost xs: seq<(string, Saved)>, ghost done: seq<(string, State)>,
                        ghost left: seq<(string, Saved)>, ghost k: seq<Token>)
    returns (r: Result<(string, State), ParseError>, ghost rest: seq<(string, Saved)>)
    requires tz.Valid()
    modifies tz
    ensures tz.Valid()
    ensures old(tz.At(DictItems(left, k)) && tz.current != Punct('}')) && DictSoFar(xs, done, left) ==>
              && r.Success? && r.value.0 !in KeysOf(done)
              && tz.At(DictItems(rest, k)) && DictSoFar(xs, done + [r.value], rest)
    ensures r.Success? ==> |tz.toks| < |old(tz.toks)|
  {
    ghost var (name, e) := if left == [] then ("", Saved([], 0)) else left[0];
    ghost var good := tz.At(DictItems(left, k)) && tz.current != Punct('}') && DictSoFar(xs, done, left);
    rest := if left == [] then [] else left[1..];
    ghost var k2 := Sep(left, DictItems(rest, k));
    if good {
      DictStep(xs, done, left, (name, ReadBack(e)));
    }
    var key := tz.TakeStr(name, [Punct(':')] + EncoderToks(e, k2));
    if key.Failure? {
      return Failure(key.error), rest;
    }
    var colon := tz.TakePunct(':', EncoderToks(e, k2));
    if colon.Failure? {
      return Failure(colon.error), rest;
    }
    var state := ParseCuInsAssembler(tz, e, k2);
    if state.Failure? {
      return Failure(state.error), rest;
    }
    var c := tz.SkipComma(|left| > 1, DictItems(rest, k));
    r := if c.Success? then Success((key.value, state.value)) else Failure(c.error);
  }

  method ParseDict(tz: Tokenizer, ghost xs: seq<(string, Saved)>, ghost k: seq<Token>)
    returns (r: Result<seq<(string, State)>, ParseError>)
    requires tz.Valid()
    modifies tz
    ensures tz.Valid()
    ensures old(tz.At([Punct('{')] + DictItems(xs, k))) && DictFits(xs) && KeysDistinct(xs) ==>
              r == Success(ReadDict(xs)) && tz.At(k)
  {
    ghost var good := tz.At([Punct('{')] + DictItems(xs, k)) && DictFits(xs) && KeysDistinct(xs);
    if good {
      DictStart(xs);
    }
    var open := tz.TakePunct('{', DictItems(xs, k));
    if open.Failure? {
      return Failure(open.error);
    }
    var dict := new OrderedMap<string, State>();
    ghost var left := xs;
    while tz.current != Punct('}')
      invariant tz.Valid() && dict.Valid() && fresh(dict)
      invariant good ==> tz.At(DictItems(left, k)) && DictSoFar(xs, dict.entries, left)
      decreases |tz.toks|
    {
      var t, rest := ParseDictEntry(tz, xs, dict.entries, left, k);
      if t.Failure? {
        return Failure(t.error);
      }
      var inserted := dict.Emplace(t.value.0, t.value.1);
      left := rest;
    }
    if good {
      DictDone(xs, dict.entries);
    }
    var close := tz.TakePunct('}', k);
    return if close.Success? then Success(dict.entries) else Failure(close.error);
  }

  /** The architecture behind the encoders; the encoders' own ones count. */
  method ParseReposArch(tz: Tokenizer, ghost arch: Option<int>, ghost k: seq<Token>) returns (r: Result<(), ParseError>)
    requires tz.Valid()
    modifies tz
    ensures tz.Valid()
    ensures old(tz.At(ReposArchToks(arch, k))) && (arch.Some? ==> arch.value in SM_VERSIONS) ==>
            (r.Success? <==> arch.Some?)
  {
    ghost var k3 := [Punct(')')] + k;
    ghost var k2 := if arch.Some? then ArchToks(arch.value, k3) else [Ident("None")] + k3;
    var c := tz.TakePunct(',', [Ident("arch")] + ([Punct('=')] + k2));
    if c.Failure? {
      return c;
    }
    var keyword := tz.TakeIdent("arch", [Punct('=')] + k2);
    if keyword.Failure? {
      return keyword;
    }
    var equals := tz.TakePunct('=', k2);
    if equals.Failure? {
      return equals;
    }
    var version := ParseCuSMVersion(tz, if arch.Some? then arch.value else 0, k3);
    if version.Failure? {
      return Failure(version.error);
    }
    r := tz.TakePunct(')', k);
  }

  /**
   Reads a saved repository, whatever white space and comments its text has. Loading succeeds exactly
   if an architecture was saved, and gives every encoder the state that its fields set.
   */
  method ParseReposFile(contents: string, ghost xs: seq<(string, Saved)>, ghost arch: Option<int>)
    returns (r: Result<seq<(string, State)>, ParseError>)
    ensures Renders(contents, ReposToks(xs, arch)) && ReposFits(xs, arch) ==>
              (r.Success? <==> arch.Some?) && (r.Success? ==> r.value == ReadDict(xs))
  {
    ghost var k3 := ReposArchToks(arch, [End]);
    ghost var k2 := [Punct('{')] + DictItems(xs, k3);
    if Renders(contents, ReposToks(xs, arch)) {
      LexRenders(contents, ReposToks(xs, arch));
      RendersFine(contents, ReposToks(xs, arch));
    }
    var tz := new Tokenizer(contents);
    var ok := tz.Advance();
    if !ok {
      return Failure(BadToken);
    }
    var name := tz.TakeIdent("CuInsAssemblerRepos", [Punct('(')] + k2);
    if name.Failure? {
      return Failure(name.error);
    }
    var open := tz.TakePunct('(', k2);
    if open.Failure? {
      return Failure(open.error);
    }
    r := ParseDict(tz, xs, k3);
    if r.Failure? {
      return;
    }
    var archRead := ParseReposArch(tz, arch, [End]);
    if archRead.Failure? {
      return Failure(archRead.error);
    }
  }
}
