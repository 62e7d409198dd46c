/** The tokenizer of the repository parser: one token of look-ahead over the unread text. */
module ReposTokenizer {
  import opened Wrappers
  import opened ReposLexer
  import opened ReposNumbers

  datatype ParseError = BadToken | Unexpected | BadNumber | BadArch | MissingArch | UnknownField

  /** Tokens without lexical errors; the end comes last and only there. */
  ghost predicate Fine(toks: seq<Token>) {
    && toks != []
    && forall i :: 0 <= i < |toks| ==> toks[i] != Bad && (toks[i] == End <==> i == |toks| - 1)
  }

  lemma FineTail(t: Token, k: seq<Token>)
    requires Fine([t] + k) && t != End
    ensures Fine(k)
  {
    assert ([t] + k)[0] == t;
    assert forall i :: 0 <= i < |k| ==> k[i] == ([t] + k)[i + 1];
  }

  /** Printed tokens are fine ones. */
  lemma {:induction false} RendersFine(text: string, toks: seq<Token>)
    requires Renders(text, toks)
    ensures Fine(toks)
    decreases toks
  {
    if toks != [End] {
      var r := RenderStep(text, toks);
      RendersFine(r, toks[1..]);
      assert forall i :: 1 <= i < |toks| ==> toks[i] == toks[1..][i - 1];
    }
  }

  class Tokenizer {
    /** The text not read yet. */
    var rest: string
    var current: Token

    /** The current token and all that follow. */
    ghost var toks: seq<Token>

    /** `toks` is what the unread text holds; stated over all texts so that it unfolds only where `Lex` is used. */
    ghost predicate Linked()
      reads this
    {
      forall s: string {:trigger Lex(s)} :: s == rest ==> toks == if current == End then [End] else [current] + Lex(s)
    }

    ghost predicate Valid()
      reads this
    {
      current != Bad && Linked()
    }

    /** The tokens still to come are these, and all of them are fine. */
    ghost predicate At(ts: seq<Token>)
      reads this
    {
      Valid() && Fine(ts) && toks == ts && current == ts[0]
    }

    /** The tokens still to come start with `t` and go on with `k`. */
    lemma AtFront(t: Token, k: seq<Token>)
      requires At([t] + k) && t != End
      ensures current == t && Lex(rest) == k && Fine(k)
    {
      FineTail(t, k);
      assert toks == [current] + Lex(rest);
      assert toks[1..] == ([t] + k)[1..] == k;
      assert toks[1..] == Lex(rest);
    }

    constructor (src: string)
      ensures Valid() && rest == src && current == Ident("")
    {
      rest := src;
      current := Ident("");
      toks := [Ident("")] + Lex(src);
    }

    /** Skips white space and comments. */
    method SkipWhitespaceAndComments()
      modifies this`rest
      ensures rest == SkipBlanks(old(rest))
    {
      while |rest| > 0 && (IsSpace(rest[0]) || rest[0] == '#')
        invariant SkipBlanks(rest) == SkipBlanks(old(rest))
        decreases |rest|
      {
        if rest[0] == '#' {
          ghost var line := SkipLine(rest);
          while |rest| > 0 && rest[0] != '\n'
            invariant SkipLine(rest) == line
            decreases |rest|
          {
            rest := rest[1..];
          }
        } else {
          rest := rest[1..];
        }
      }
    }

    /** Reads the next token into `current`; fails, and leaves it, at unreadable text. */
    method Advance() returns (ok: bool)
      requires Valid()
      modifies this
      ensures Valid()
      ensures ok <==> NextToken(old(rest)).0 != Bad
      ensures ok ==> (current, rest) == NextToken(old(rest))
      ensures ok ==> toks == Lex(old(rest))
    {
      ghost var before := rest;
      SkipWhitespaceAndComments();
      var (tok, after) := NextToken(rest);
      SkipTwice(before);
      assert Lex(rest) == Lex(before);
      if tok == Bad {
        return false;
      }
      current, rest := tok, after;
      toks := Lex(before);
      return true;
    }

    /** Hands out the current token and moves on; the end stays the end. */
    method Take(ghost t: Token, ghost k: seq<Token>) returns (r: Result<Token, ParseError>)
      requires Valid()
      modifies this
      ensures Valid()
      ensures old(At([t] + k)) && t != End ==> r == Success(t) && At(k)
      ensures r.Success? ==> r.value == old(current)
      ensures old(current) != End && r.Success? ==> |toks| < |old(toks)|
      ensures old(current) == End ==> r == Success(End) && toks == old(toks)
    {
      if At([t] + k) && t != End {
        AtFront(t, k);
        assert k[0] != Bad;
      }
      var taken := current;
      if taken == End {
        return Success(End);
      }
      assert toks == [current] + Lex(rest);
      assert Lex(rest)[0] == NextToken(rest).0;
      var ok := Advance();
      if !ok {
        return Failure(BadToken);
      }
      return Success(taken);
    }

    /** Takes a token of an expected shape. */
    method TakePunct(c: char, ghost k: seq<Token>) returns (r: Result<(), ParseError>)
      requires Valid()
      modifies this
      ensures Valid()
      ensures old(At([Punct(c)] + k)) ==> r == Success(()) && At(k)
      ensures r.Success? ==> |toks| < |old(toks)|
    {
      if At([Punct(c)] + k) {
        AtFront(Punct(c), k);
      }
      if current != Punct(c) {
        return Failure(Unexpected);
      }
      var t := Take(Punct(c), k);
      return if t.Success? then Success(()) else Failure(t.error);
    }

    method TakeStr(ghost x: string, ghost k: seq<Token>) returns (r: Result<string, ParseError>)
      requires Valid()
      modifies this
      ensures Valid()
      ensures old(At([Str(x)] + k)) ==> r == Success(x) && At(k)
      ensures r.Success? ==> |toks| < |old(toks)|
    {
      if At([Str(x)] + k) {
        AtFront(Str(x), k);
      }
      if !current.Str? {
        return Failure(Unexpected);
      }
      var t := Take(Str(x), k);
      return if t.Success? then Success(t.value.text) else Failure(t.error);
    }

    method TakeIdent(name: string, ghost k: seq<Token>) returns (r: Result<(), ParseError>)
      requires Valid()
      modifies this
      ensures Valid()
      ensures old(At([Ident(name)] + k)) ==> r == Success(()) && At(k)
      ensures old(current) != Ident(name) ==> r.Failure?
      ensures r.Success? ==> |toks| < |old(toks)|
    {
      if At([Ident(name)] + k) {
        AtFront(Ident(name), k);
      }
      if current != Ident(name) {
        return Failure(Unexpected);
      }
      var t := Take(Ident(name), k);
      return if t.Success? then Success(()) else Failure(t.error);
    }

    /** Takes a number. */
    method TakeInt(ghost d: string, ghost v: int, ghost k: seq<Token>) returns (r: Result<int, ParseError>)
      requires Valid()
      modifies this
      ensures Valid()
      ensures old(At([Num(d)] + k)) && ParseBigInt(d) == Some(v) ==> r == Success(v) && At(k)
      ensures r.Success? ==> |toks| < |old(toks)|
    {
      if At([Num(d)] + k) {
        AtFront(Num(d), k);
      }
      if !current.Num? {
        return Failure(Unexpected);
      }
      var t := Take(Num(d), k);
      if t.Failure? {
        return Failure(t.error);
      }
      var n := ParseBigInt(t.value.digits);
      return if n.Some? then Success(n.value) else Failure(BadNumber);
    }

    /** Takes a number and the comma behind it. */
    method TakeIntComma(ghost d: string, ghost v: int, ghost k: seq<Token>) returns (r: Result<int, ParseError>)
      requires Valid()
      modifies this
      ensures Valid()
      ensures old(At([Num(d)] + ([Punct(',')] + k))) && ParseBigInt(d) == Some(v) ==> r == Success(v) && At(k)
      ensures r.Success? ==> |toks| < |old(toks)|
    {
      var n := TakeInt(d, v, [Punct(',')] + k);
      if n.Failure? {
        return n;
      }
      var c := TakePunct(',', k);
      return if c.Success? then n else Failure(c.error);
    }

    /** Skips a comma, if there is one. */
    method SkipComma(ghost more: bool, ghost k: seq<Token>) returns (r: Result<(), ParseError>)
      requires Valid()
      modifies this
      ensures Valid()
      ensures old(At(if more then [Punct(',')] + k else k)) && k != [] && k[0] != Punct(',') ==>
              r == Success(()) && At(k)
      ensures r.Success? ==> |toks| <= |old(toks)|
    {
      if more && At([Punct(',')] + k) {
        AtFront(Punct(','), k);
      }
      if current == Punct(',') {
        var t := Take(Punct(','), k);
        return if t.Success? then Success(()) else Failure(t.error);
      }
      return Success(());
    }
  }

  lemma {:induction false} SkipTwice(s: string)
    ensures NextToken(SkipBlanks(s)) == NextToken(s)
    decreases |s|
  {
    if s != "" && IsSpace(s[0]) {
      SkipTwice(s[1..]);
    } else if s != "" && s[0] == '#' {
      SkipTwice(SkipLine(s));
    }
  }
}
