/**
 Saved repositories: the tokens a repository is printed as, and the recursive-descent parser that
 reads them back.
 */
module ReposParser {
  import opened Wrappers
  import opened OrderedMaps
  import opened InsSamples
  import opened ReposLexer
  import opened ReposNumbers
  import opened ReposTokenizer

  const COMMA := Punct(',')

  function Sep<T>(left: seq<T>, k: seq<Token>): seq<Token> {
    if |left| > 1 then [COMMA] + k else k
  }

  lemma MoveOne<T>(out: seq<T>, left: seq<T>)
    ensures left != [] ==> out + left == (out + [left[0]]) + left[1..]
  {
  }

  lemma NothingLeft<T>(out: seq<T>, left: seq<T>)
    ensures left == [] ==> out + left == out
  {
  }

  // ---------- Lists of strings and numbers ----------

  function StrItems(xs: seq<string>, k: seq<Token>): (t: seq<Token>)
    ensures t != [] && t[0] == if xs == [] then Punct(']') else Str(xs[0])
  {
    if xs == [] then [Punct(']')] + k else [Str(xs[0])] + Sep(xs, StrItems(xs[1..], k))
  }

  function StrListToks(xs: seq<string>, k: seq<Token>): seq<Token> {
    [Punct('[')] + StrItems(xs, k)
  }

  function IntItems(xs: seq<int>, k: seq<Token>): (t: seq<Token>)
    ensures t != [] && t[0] == if xs == [] then Punct(']') else Num(DecText(xs[0]))
  {
    if xs == [] then [Punct(']')] + k else [Num(DecText(xs[0]))] + Sep(xs, IntItems(xs[1..], k))
  }

  function IntListToks(xs: seq<int>, k: seq<Token>): seq<Token> {
    [Punct('[')] + IntItems(xs, k)
  }

  method ParseStrList(tz: Tokenizer, ghost xs: seq<string>, ghost k: seq<Token>)
    returns (r: Result<seq<string>, ParseError>)
    requires tz.Valid()
    modifies tz
    ensures tz.Valid()
    ensures old(tz.At(StrListToks(xs, k))) ==> r == Success(xs) && tz.At(k)
    ensures r.Success? ==> |tz.toks| < |old(tz.toks)|
  {
    ghost var good := tz.At(StrListToks(xs, k));
    var open := tz.TakePunct('[', StrItems(xs, k));
    if open.Failure? {
      return Failure(open.error);
    }
    var out: seq<string> := [];
    ghost var left := xs;
    while tz.current != Punct(']')
      invariant tz.Valid()
      invariant good ==> tz.At(StrItems(left, k)) && out + left == xs
      invariant |tz.toks| < |old(tz.toks)|
      decreases |tz.toks|
    {
      ghost var x, more := if left == [] then "" else left[0], if left == [] then [] else left[1..];
      var t := tz.TakeStr(x, Sep(left, StrItems(more, k)));
      if t.Failure? {
        return Failure(t.error);
      }
      var c := tz.SkipComma(|left| > 1, StrItems(more, k));
      if c.Failure? {
        return Failure(c.error);
      }
      MoveOne(out, left);
      out := out + [t.value];
      left := more;
    }
    NothingLeft(out, left);
    assert good ==> left == [];
    var close := tz.TakePunct(']', k);
    return if close.Success? then Success(out) else Failure(close.error);
  }

  method ParseIntList(tz: Tokenizer, ghost xs: seq<int>, ghost k: seq<Token>) returns (r: Result<seq<int>, ParseError>)
    requires tz.Valid()
    modifies tz
    ensures tz.Valid()
    ensures old(tz.At(IntListToks(xs, k))) ==> r == Success(xs) && tz.At(k)
    ensures r.Success? ==> |tz.toks| < |old(tz.toks)|
  {
    ghost var good := tz.At(IntListToks(xs, k));
    var open := tz.TakePunct('[', IntItems(xs, k));
    if open.Failure? {
      return Failure(open.error);
    }
    var out: seq<int> := [];
    ghost var left := xs;
    while tz.current != Punct(']')
      invariant tz.Valid()
      invariant good ==> tz.At(IntItems(left, k)) && out + left == xs
      invariant |tz.toks| < |old(tz.toks)|
      decreases |tz.toks|
    {
      ghost var x, more := if left == [] then 0 else left[0], if left == [] then [] else left[1..];
      DecRoundTrip(x);
      var t := tz.TakeInt(DecText(x), x, Sep(left, IntItems(more, k)));
      if t.Failure? {
        return Failure(t.error);
      }
      var c := tz.SkipComma(|left| > 1, IntItems(more, k));
      if c.Failure? {
        return Failure(c.error);
      }
      MoveOne(out, left);
      out := out + [t.value];
      left := more;
    }
    NothingLeft(out, left);
    assert good ==> left == [];
    var close := tz.TakePunct(']', k);
    return if close.Success? then Success(out) else Failure(close.error);
  }

  // ---------- Samples ----------

  function EntryToks(e: Sample, k: seq<Token>): seq<Token> {
    var k2 := [COMMA] + ([Num(DecText(e.code))] + ([Punct(')')] + k));
    [Punct('(')] + IntListToks(e.vals, [COMMA] + StrListToks(e.modi, k2))
  }

  function EntryItems(xs: seq<Sample>, k: seq<Token>): (t: seq<Token>)
    ensures t != [] && t[0] == if xs == [] then Punct(']') else Punct('(')
  {
    if xs == [] then [Punct(']')] + k else EntryToks(xs[0], Sep(xs, EntryItems(xs[1..], k)))
  }

  function EntryListToks(xs: seq<Sample>, k: seq<Token>): seq<Token> {
    [Punct('[')] + EntryItems(xs, k)
  }

  method ParseInsReposEntry(tz: Tokenizer, ghost e: Sample, ghost k: seq<Token>) returns (r: Result<Sample, ParseError>)
    requires tz.Valid()
    modifies tz
    ensures tz.Valid()
    ensures old(tz.At(EntryToks(e, k))) ==> r == Success(e) && tz.At(k)
    ensures r.Success? ==> |tz.toks| < |old(tz.toks)|
  {
    ghost var k4 := [Punct(')')] + k;
    ghost var k3 := [Num(DecText(e.code))] + k4;
    ghost var k2 := StrListToks(e.modi, [COMMA] + k3);
    var open := tz.TakePunct('(', IntListToks(e.vals, [COMMA] + k2));
    if open.Failure? {
      return Failure(open.error);
    }
    var vals := ParseIntList(tz, e.vals, [COMMA] + k2);
    if vals.Failure? {
      return Failure(vals.error);
    }
    var c1 := tz.TakePunct(',', k2);
    if c1.Failure? {
      return Failure(c1.error);
    }
    var modi := ParseStrList(tz, e.modi, [COMMA] + k3);
    if modi.Failure? {
      return Failure(modi.error);
    }
    var c2 := tz.TakePunct(',', k3);
    if c2.Failure? {
      return Failure(c2.error);
    }
    DecRoundTrip(e.code);
    var code := tz.TakeInt(DecText(e.code), e.code, k4);
    if code.Failure? {
      return Failure(code.error);
    }
    var close := tz.TakePunct(')', k);
    return if close.Success? then Success(Sample(vals.value, modi.value, code.value)) else Failure(close.error);
  }

  method ParseInsReposList(tz: Tokenizer, ghost xs: seq<Sample>, ghost k: seq<Token>)
    returns (r: Result<seq<Sample>, ParseError>)
    requires tz.Valid()
    modifies tz
    ensures tz.Valid()
    ensures old(tz.At(EntryListToks(xs, k))) ==> r == Success(xs) && tz.At(k)
    ensures r.Success? ==> |tz.toks| < |old(tz.toks)|
  {
    ghost var good := tz.At(EntryListToks(xs, k));
    var open := tz.TakePunct('[', EntryItems(xs, k));
    if open.Failure? {
      return Failure(open.error);
    }
    var out: seq<Sample> := [];
    ghost var left := xs;
    while tz.current != Punct(']')
      invariant tz.Valid()
      invariant good ==> tz.At(EntryItems(left, k)) && out + left == xs
      invariant |tz.toks| < |old(tz.toks)|
      decreases |tz.toks|
    {
      ghost var x, more := if left == [] then Sample([], [], 0) else left[0], if left == [] then [] else left[1..];
      var t := ParseInsReposEntry(tz, x, Sep(left, EntryItems(more, k)));
      if t.Failure? {
        return Failure(t.error);
      }
      var c := tz.SkipComma(|left| > 1, EntryItems(more, k));
      if c.Failure? {
        return Failure(c.error);
      }
      MoveOne(out, left);
      out := out + [t.value];
      left := more;
    }
    NothingLeft(out, left);
    assert good ==> left == [];
    var close := tz.TakePunct(']', k);
    return if close.Success? then Success(out) else Failure(close.error);
  }

  // ---------- Modifier columns ----------

  function ModiItems(xs: seq<(string, int)>, k: seq<Token>): (t: seq<Token>)
    ensures t != [] && t[0] == if xs == [] then Punct('}') else Str(xs[0].0)
  {
    if xs == [] then [Punct('}')] + k
    else [Str(xs[0].0)] + ([Punct(':')] + ([Num(DecText(xs[0].1))] + Sep(xs, ModiItems(xs[1..], k))))
  }

  function ModiSetToks(xs: seq<(string, int)>, k: seq<Token>): seq<Token> {
    [Punct('{')] + ModiItems(xs, k)
  }

  /** Insertion by index. */
  function Insert(x: (string, int), xs: seq<(string, int)>): seq<(string, int)> {
    if xs == [] || x.1 < xs[0].1 then [x] + xs else [xs[0]] + Insert(x, xs[1..])
  }

  /** The entries in the order of their indices. */
  function SortByIndex(xs: seq<(string, int)>): seq<(string, int)> {
    if xs == [] then [] else Insert(xs[0], SortByIndex(xs[1..]))
  }

  ghost predicate Ascending(xs: seq<(string, int)>) {
    forall i, j :: 0 <= i < j < |xs| ==> xs[i].1 < xs[j].1
  }

  ghost predicate KeysDistinct<K(!new), V>(xs: seq<(K, V)>) {
    forall i, j :: 0 <= i < j < |xs| ==> xs[i].0 != xs[j].0
  }

  /** Sorting keeps what is in order. */
  lemma {:induction false} SortOfAscending(xs: seq<(string, int)>)
    requires Ascending(xs)
    ensures SortByIndex(xs) == xs
  {
    if xs != [] {
      SortOfAscending(xs[1..]);
      assert xs == [xs[0]] + xs[1..];
    }
  }

  /** Builds the column map in index order. */
  method ColumnsInOrder(entries: seq<(string, int)>) returns (out: seq<(string, int)>)
    ensures Ascending(entries) && KeysDistinct(entries) ==> out == entries
  {
    var sorted := SortByIndex(entries);
    if Ascending(entries) {
      SortOfAscending(entries);
    }
    var columns := new OrderedMap<string, int>();
    for i := 0 to |sorted|
      invariant columns.Valid() && fresh(columns)
      invariant KeysDistinct(sorted) ==> columns.entries == sorted[..i]
    {
      assert KeysDistinct(sorted) && columns.entries == sorted[..i] ==> sorted[i].0 !in columns.Keys();
      columns.InsertOrAssign(sorted[i].0, sorted[i].1);
      assert sorted[..i + 1] == sorted[..i] + [(sorted[i].0, sorted[i].1)];
    }
    assert sorted[..|sorted|] == sorted;
    return columns.entries;
  }

  method ParseModiSetDict(tz: Tokenizer, ghost xs: seq<(string, int)>, ghost k: seq<Token>)
    returns (r: Result<seq<(string, int)>, ParseError>)
    requires tz.Valid()
    modifies tz
    ensures tz.Valid()
    ensures old(tz.At(ModiSetToks(xs, k))) && Ascending(xs) && KeysDistinct(xs) ==> r == Success(xs) && tz.At(k)
    ensures r.Success? ==> |tz.toks| < |old(tz.toks)|
  {
    ghost var good := tz.At(ModiSetToks(xs, k));
    var open := tz.TakePunct('{', ModiItems(xs, k));
    if open.Failure? {
      return Failure(open.error);
    }
    var out: seq<(string, int)> := [];
    ghost var left := xs;
    while tz.current != Punct('}')
      invariant tz.Valid()
      invariant good ==> tz.At(ModiItems(left, k)) && out + left == xs
      invariant |tz.toks| < |old(tz.toks)|
      decreases |tz.toks|
    {
      ghost var x, more := if left == [] then ("", 0) else left[0], if left == [] then [] else left[1..];
      ghost var k2 := Sep(left, ModiItems(more, k));
      ghost var k1 := [Num(DecText(x.1))] + k2;
      var name := tz.TakeStr(x.0, [Punct(':')] + k1);
      if name.Failure? {
        return Failure(name.error);
      }
      var colon := tz.TakePunct(':', k1);
      if colon.Failure? {
        return Failure(colon.error);
      }
      DecRoundTrip(x.1);
      var idx := tz.TakeInt(DecText(x.1), x.1, k2);
      if idx.Failure? {
        return Failure(idx.error);
      }
      var c := tz.SkipComma(|left| > 1, ModiItems(more, k));
      if c.Failure? {
        return Failure(c.error);
      }
      MoveOne(out, left);
      out := out + [(name.value, idx.value)];
      left := more;
    }
    NothingLeft(out, left);
    assert good ==> left == [];
    var close := tz.TakePunct('}', k);
    if close.Failure? {
      return Failure(close.error);
    }
    var columns := ColumnsInOrder(out);
    return Success(columns);
  }
}
