/**
 The tokens of a saved repository: how text is cut into tokens, and why the printed form of a token
 is read back as that token.
 */
module ReposLexer {
  import opened Wrappers

  datatype Token = Ident(name: string) | Str(text: string) | Num(digits: string) | Punct(c: char) | End | Bad

  // ---------- Character classes ----------

  predicate IsSpace(c: char) {
    c == ' ' || 9 <= c as int <= 13
  }

  predicate IsDigit(c: char) {
    '0' <= c <= '9'
  }

  predicate IsHexDigit(c: char) {
    IsDigit(c) || 'a' <= c <= 'f' || 'A' <= c <= 'F'
  }

  predicate IsLetter(c: char) {
    'a' <= c <= 'z' || 'A' <= c <= 'Z' || c == '_'
  }

  predicate IsWordChar(c: char) {
    IsLetter(c) || IsDigit(c)
  }

  predicate IsPunct(c: char) {
    c in "()[]{}:,=/"
  }

  // ---------- Cutting off one token ----------

  /** The text from the next line end on. */
  function SkipLine(s: string): (r: string)
    ensures |r| <= |s|
    ensures s != "" && s[0] != '\n' ==> |r| < |s|
  {
    if s == "" || s[0] == '\n' then s else SkipLine(s[1..])
  }

  /** The text after leading white space and comments. */
  function SkipBlanks(s: string): (r: string)
    ensures |r| <= |s|
    decreases |s|
  {
    if s == "" then ""
    else if IsSpace(s[0]) then SkipBlanks(s[1..])
    else if s[0] == '#' then SkipBlanks(SkipLine(s))
    else s
  }

  /** The contents of a string literal and the text behind it; a backslash stands for the character after it. */
  function ReadString(s: string, quote: char): (r: Option<(string, string)>)
    ensures r.Some? ==> |r.value.1| < |s|
    decreases |s|
  {
    if s == "" then None
    else if s[0] == quote then Some(("", s[1..]))
    else
      var skip := if s[0] == '\\' && |s| > 1 then 1 else 0;
      match ReadString(s[skip + 1..], quote)
      case None => None
      case Some((text, rest)) => Some(([s[skip]] + text, rest))
  }

  /** The leading characters of a class. */
  function Span(s: string, p: char -> bool): (r: (string, string))
    ensures |r.0| + |r.1| == |s|
  {
    if s == "" || !p(s[0]) then ("", s)
    else
      var r := Span(s[1..], p);
      ([s[0]] + r.0, r.1)
  }

  /** Hexadecimal digits behind `0x`, or decimal digits. */
  function ReadMagnitude(t: string): (r: (string, string)) {
    if |t| > 1 && t[0] == '0' && (t[1] == 'x' || t[1] == 'X') then
      var digits := Span(t[2..], IsHexDigit);
      (t[..2] + digits.0, digits.1)
    else Span(t, IsDigit)
  }

  /** A number literal: an optional sign and a magnitude. */
  function ReadNumber(s: string): (r: (string, string)) {
    if s != "" && s[0] == '-' then
      var m := ReadMagnitude(s[1..]);
      ("-" + m.0, m.1)
    else ReadMagnitude(s)
  }

  /** The first token and the text behind it; `Bad` where reading fails. */
  function NextToken(s: string): (r: (Token, string)) {
    var t := SkipBlanks(s);
    if t == "" then (End, "")
    else if IsPunct(t[0]) then (Punct(t[0]), t[1..])
    else if t[0] == '\'' || t[0] == '"' then
      match ReadString(t[1..], t[0])
      case None => (Bad, "")
      case Some((text, rest)) => (Str(text), rest)
    else if t[0] == '-' || IsDigit(t[0]) then
      var (digits, rest) := ReadNumber(t);
      (Num(digits), rest)
    else if IsLetter(t[0]) then
      var (name, rest) := Span(t, IsWordChar);
      (Ident(name), rest)
    else (Bad, "")
  }

  lemma NextTokenShorter(s: string)
    ensures NextToken(s).0 != End && NextToken(s).0 != Bad ==> |NextToken(s).1| < |s|
  {
    var t := SkipBlanks(s);
    if t != "" && (t[0] == '-' || IsDigit(t[0])) {
      NumberShorter(t);
    }
  }

  lemma NumberShorter(t: string)
    requires t != "" && (t[0] == '-' || IsDigit(t[0]))
    ensures |ReadNumber(t).1| < |t|
  {
    if t[0] != '-' && !(|t| > 1 && t[0] == '0' && (t[1] == 'x' || t[1] == 'X')) {
      assert Span(t, IsDigit).0 != "";
    }
  }

  /** All tokens of a text, up to its end or the first failure. */
  function Lex(s: string): (toks: seq<Token>)
    ensures toks != []
    decreases |s|
  {
    NextTokenShorter(s);
    var (tok, rest) := NextToken(s);
    if tok == End || tok == Bad then [tok] else [tok] + Lex(rest)
  }

  // ---------- Printed tokens ----------

  /** White space and complete comments. */
  predicate IsBlank(b: string)
    decreases |b|
  {
    b == "" || (IsSpace(b[0]) && IsBlank(b[1..])) || (b[0] == '#' && SkipLine(b) != "" && IsBlank(SkipLine(b)))
  }

  lemma {:induction false} SkipLineAppend(b: string, r: string)
    requires SkipLine(b) != ""
    ensures SkipLine(b + r) == SkipLine(b) + r
  {
    if b[0] != '\n' {
      assert (b + r)[1..] == b[1..] + r;
      SkipLineAppend(b[1..], r);
    }
  }

  lemma {:induction false} SkipBlank(b: string, r: string)
    requires IsBlank(b)
    ensures SkipBlanks(b + r) == SkipBlanks(r)
    decreases |b|
  {
    if b == "" {
      assert b + r == r;
    } else if IsSpace(b[0]) {
      assert (b + r)[1..] == b[1..] + r;
      SkipBlank(b[1..], r);
    } else {
      SkipLineAppend(b, r);
      SkipBlank(SkipLine(b), r);
    }
  }

  /** The text behind the first line end. */
  function AfterLine(s: string): string {
    if s == "" then "" else if s[0] == '\n' then s[1..] else AfterLine(s[1..])
  }

  lemma {:induction false} LineSkipped(text: string)
    ensures SkipLine(text + "\n") == if '\n' in text then "\n" + (AfterLine(text) + "\n") else "\n"
  {
    if text == "" {
      assert text + "\n" == "\n";
    } else if text[0] == '\n' {
      assert text + "\n" == "\n" + (text[1..] + "\n");
    } else {
      assert (text + "\n")[1..] == text[1..] + "\n";
      LineSkipped(text[1..]);
    }
  }

  function Comment(text: string): string {
    "#" + text + "\n"
  }

  /** A comment is blank exactly if the rest of its text, behind a first line end, is. */
  lemma {:induction false} CommentBlankIff(text: string)
    ensures IsBlank(Comment(text)) <==> '\n' !in text || IsBlank(AfterLine(text) + "\n")
  {
    var b, rest := Comment(text), "\n" + (AfterLine(text) + "\n");
    assert b[1..] == text + "\n";
    LineSkipped(text);
    assert "\n"[1..] == "" && rest[1..] == AfterLine(text) + "\n";
    assert IsBlank("\n");
  }

  predicate EndsLine(b: string) {
    b != "" && b[|b| - 1] == '\n'
  }

  lemma {:induction false} LineEndKept(b: string)
    requires EndsLine(b)
    ensures EndsLine(SkipLine(b))
  {
    if b[0] != '\n' {
      LineEndKept(b[1..]);
    }
  }

  /** Whole lines that are skipped are blank. */
  lemma {:induction false} SkippedIsBlank(b: string)
    requires SkipBlanks(b) == "" && (b == "" || EndsLine(b))
    ensures IsBlank(b)
    decreases |b|
  {
    if b != "" {
      if IsSpace(b[0]) {
        SkippedIsBlank(b[1..]);
      } else {
        LineEndKept(b);
        SkippedIsBlank(SkipLine(b));
      }
    }
  }

  /** Whole lines leave the tokens of every text behind them alone exactly if they are blank. */
  lemma {:induction false} InvisibleIffBlank(b: string)
    requires EndsLine(b)
    ensures (forall r: string :: Lex(b + r) == Lex(r)) <==> IsBlank(b)
  {
    if IsBlank(b) {
      forall r: string
        ensures Lex(b + r) == Lex(r)
      {
        SkipBlank(b, r);
      }
    } else if forall r: string :: Lex(b + r) == Lex(r) {
      assert b + "" == b && Lex(b) == Lex("");
      assert Lex("") == [End] && NextToken(b).0 == End;
      SkippedIsBlank(b);
    }
  }

  /** The single-quoted form: quotes and backslashes are escaped. */
  function Escaped(s: string): string {
    if s == "" then ""
    else (if s[0] == '\'' || s[0] == '\\' then "\\" else "") + [s[0]] + Escaped(s[1..])
  }

  /** Nothing but quotes and backslashes is escaped. */
  lemma {:induction false} PlainNotEscaped(s: string)
    requires '\'' !in s && '\\' !in s
    ensures Escaped(s) == s
  {
    if s != "" {
      PlainNotEscaped(s[1..]);
      assert s[0] in s && s == [s[0]] + s[1..];
    }
  }

  /** A string literal with one more character at the front. */
  function Prepended(c: char, r: Option<(string, string)>): Option<(string, string)> {
    match r
    case None => None
    case Some((text, rest)) => Some(([c] + text, rest))
  }

  lemma ReadPlainChar(c: char, tail: string, quote: char)
    requires c != quote && c != '\\'
    ensures ReadString([c] + tail, quote) == Prepended(c, ReadString(tail, quote))
  {
    assert ([c] + tail)[1..] == tail;
  }

  lemma ReadEscapedChar(c: char, tail: string, quote: char)
    requires quote != '\\'
    ensures ReadString(['\\', c] + tail, quote) == Prepended(c, ReadString(tail, quote))
  {
    assert (['\\', c] + tail)[2..] == tail;
  }

  lemma EscapedStep(s: string, more: string)
    requires s != ""
    ensures Escaped(s) + more ==
            (if s[0] == '\'' || s[0] == '\\' then ['\\', s[0]] else [s[0]]) + (Escaped(s[1..]) + more)
  {
  }

  /** Escaped strings are read back, whatever they contain. */
  lemma {:induction false} ReadEscaped(s: string, more: string, r: string)
    requires more == "'" + r
    ensures ReadString(Escaped(s) + more, '\'') == Some((s, r))
  {
    if s == "" {
      assert Escaped(s) + more == more;
      assert more[1..] == r;
    } else {
      ReadEscaped(s[1..], more, r);
      EscapedStep(s, more);
      var tail := Escaped(s[1..]) + more;
      if s[0] == '\'' || s[0] == '\\' {
        ReadEscapedChar(s[0], tail, '\'');
      } else {
        ReadPlainChar(s[0], tail, '\'');
      }
      assert [s[0]] + s[1..] == s;
    }
  }

  /** What is read from a literal is never longer than its source, and shorter once there was an escape. */
  lemma {:induction false} ReadLength(s: string, quote: char)
    ensures ReadString(s, quote).Some? ==>
              var (text, rest) := ReadString(s, quote).value;
              && |text| + 1 + |rest| <= |s|
              && (|text| + 1 + |rest| == |s| ==> s == text + [quote] + rest && '\\' !in text && quote !in text)
    decreases |s|
  {
    if s != "" && s[0] != quote {
      var skip := if s[0] == '\\' && |s| > 1 then 1 else 0;
      ReadLength(s[skip + 1..], quote);
      if s[0] == '\\' && |s| == 1 {
        assert s[1..] == "";
      }
    }
  }

  lemma {:induction false} ReadPlain(s: string, r: string, quote: char)
    requires '\\' !in s && quote !in s
    ensures ReadString(s + [quote] + r, quote) == Some((s, r))
  {
    if s == "" {
      assert (s + [quote] + r)[1..] == r;
    } else {
      ReadPlain(s[1..], r, quote);
      assert (s + [quote] + r)[1..] == s[1..] + [quote] + r;
      assert s[0] in s;
      assert [s[0]] + s[1..] == s;
    }
  }

  /** Text printed without escapes is read back exactly when it has neither quotes nor backslashes. */
  lemma PlainRoundTrip(s: string, r: string)
    ensures ReadString(s + "\"" + r, '"') == Some((s, r)) <==> '\\' !in s && '"' !in s
  {
    if '\\' !in s && '"' !in s {
      ReadPlain(s, r, '"');
    }
    if ReadString(s + "\"" + r, '"') == Some((s, r)) {
      ReadLength(s + "\"" + r, '"');
    }
  }

  predicate AllChars(s: string, p: char -> bool) {
    forall i :: 0 <= i < |s| ==> p(s[i])
  }

  lemma {:induction false} SpanExact(s: string, r: string, p: char -> bool)
    requires AllChars(s, p) && (r == "" || !p(r[0]))
    ensures Span(s + r, p) == (s, r)
  {
    if s == "" {
      assert s + r == r;
    } else {
      assert AllChars(s[1..], p);
      SpanExact(s[1..], r, p);
      assert (s + r)[1..] == s[1..] + r;
      assert [s[0]] + s[1..] == s;
    }
  }

  /** Nothing that would go on with a number or a name. */
  predicate Delimited(r: string) {
    r == "" || !IsWordChar(r[0])
  }

  predicate IsMagnitude(u: string) {
    || (|u| > 2 && u[0] == '0' && u[1] == 'x' && AllChars(u[2..], IsHexDigit))
    || (u != "" && AllChars(u, IsDigit))
  }

  /** A printed number: decimal or hexadecimal, with or without a sign. */
  predicate IsNumText(t: string) {
    IsMagnitude(t) || (t != "" && t[0] == '-' && IsMagnitude(t[1..]))
  }

  predicate IsIdentText(t: string) {
    t != "" && IsLetter(t[0]) && AllChars(t, IsWordChar)
  }

  /** A printed form of a token. */
  predicate IsLexeme(tok: Token, l: string) {
    match tok
    case Ident(name) => l == name && IsIdentText(name)
    case Str(text) => l == "'" + Escaped(text) + "'" || (l == "\"" + text + "\"" && '\\' !in text && '"' !in text)
    case Num(digits) => l == digits && IsNumText(digits)
    case Punct(c) => l == [c] && IsPunct(c)
    case _ => false
  }

  /** Names and numbers are not glued to what follows. */
  predicate Separate(tok: Token, r: string) {
    tok.Ident? || tok.Num? ==> Delimited(r)
  }

  lemma HexRead(u: string, r: string)
    requires |u| > 2 && u[0] == '0' && u[1] == 'x' && AllChars(u[2..], IsHexDigit) && Delimited(r)
    ensures ReadMagnitude(u + r) == (u, r)
  {
    assert (u + r)[2..] == u[2..] + r;
    SpanExact(u[2..], r, IsHexDigit);
    assert (u + r)[..2] + u[2..] == u;
  }

  lemma DecimalRead(u: string, r: string)
    requires u != "" && AllChars(u, IsDigit) && Delimited(r)
    ensures ReadMagnitude(u + r) == (u, r)
  {
    assert |u + r| > 1 ==> (u + r)[1] == if |u| > 1 then u[1] else r[0];
    assert |u| > 1 ==> IsDigit(u[1]);
    SpanExact(u, r, IsDigit);
  }

  lemma MagnitudeRead(u: string, r: string)
    requires IsMagnitude(u) && Delimited(r)
    ensures ReadMagnitude(u + r) == (u, r) && IsDigit(u[0])
  {
    if |u| > 2 && u[0] == '0' && u[1] == 'x' && AllChars(u[2..], IsHexDigit) {
      HexRead(u, r);
    } else {
      DecimalRead(u, r);
    }
  }

  lemma NumberRead(t: string, r: string)
    requires IsNumText(t) && Delimited(r)
    ensures ReadNumber(t + r) == (t, r)
  {
    if IsMagnitude(t) {
      MagnitudeRead(t, r);
    } else {
      MagnitudeRead(t[1..], r);
      assert (t + r)[1..] == t[1..] + r;
      assert t == "-" + t[1..];
    }
  }

  /** A text that starts with something other than blanks is not skipped. */
  lemma NothingToSkip(t: string)
    requires t != "" && !IsSpace(t[0]) && t[0] != '#'
    ensures SkipBlanks(t) == t
  {
  }

  lemma QuotedRead(text: string, r: string)
    ensures NextToken("'" + Escaped(text) + "'" + r) == (Str(text), r)
  {
    var s := "'" + Escaped(text) + "'" + r;
    NothingToSkip(s);
    ReadEscaped(text, "'" + r, r);
    assert s[1..] == Escaped(text) + ("'" + r);
  }

  lemma PlainRead(text: string, r: string)
    requires '\\' !in text && '"' !in text
    ensures NextToken("\"" + text + "\"" + r) == (Str(text), r)
  {
    var s := "\"" + text + "\"" + r;
    NothingToSkip(s);
    ReadPlain(text, r, '"');
    assert s[1..] == text + ['"'] + r;
  }

  lemma StringRead(text: string, l: string, r: string)
    requires IsLexeme(Str(text), l)
    ensures NextToken(l + r) == (Str(text), r)
  {
    if l == "'" + Escaped(text) + "'" {
      QuotedRead(text, r);
    } else {
      PlainRead(text, r);
    }
  }

  lemma NumRead(digits: string, r: string)
    requires IsNumText(digits) && Delimited(r)
    ensures NextToken(digits + r) == (Num(digits), r)
  {
    if IsMagnitude(digits) {
      MagnitudeRead(digits, r);
    }
    NothingToSkip(digits + r);
    NumberRead(digits, r);
  }

  lemma IdentRead(name: string, r: string)
    requires IsIdentText(name) && Delimited(r)
    ensures NextToken(name + r) == (Ident(name), r)
  {
    NothingToSkip(name + r);
    SpanExact(name, r, IsWordChar);
  }

  lemma PunctRead(c: char, r: string)
    requires IsPunct(c)
    ensures NextToken([c] + r) == (Punct(c), r)
  {
    NothingToSkip([c] + r);
    assert ([c] + r)[1..] == r;
  }

  /** A printed token is read back. */
  lemma LexemeRead(tok: Token, l: string, r: string)
    requires IsLexeme(tok, l) && Separate(tok, r)
    ensures NextToken(l + r) == (tok, r)
  {
    match tok
    case Str(text) => StringRead(text, l, r);
    case Punct(c) => PunctRead(c, r);
    case Ident(name) => IdentRead(name, r);
    case Num(digits) => NumRead(digits, r);
  }

  /** The text is a printed form of the tokens up to the end, with any white space and comments around them. */
  ghost predicate Renders(text: string, toks: seq<Token>)
    decreases toks
  {
    if toks == [End] then IsBlank(text)
    else
      && toks != []
      && exists b: string, l: string, r: string {:trigger IsBlank(b), IsLexeme(toks[0], l), Renders(r, toks[1..])} ::
           text == b + (l + r) && IsBlank(b) && IsLexeme(toks[0], l) && Separate(toks[0], r) && Renders(r, toks[1..])
  }

  lemma BlankBefore(b: string, s: string, tok: Token, r: string)
    requires IsBlank(b) && NextToken(s) == (tok, r) && tok != End && tok != Bad
    ensures Lex(b + s) == [tok] + Lex(r)
  {
    SkipBlank(b, s);
  }

  /** The first token of a printed form. */
  lemma RenderStep(text: string, toks: seq<Token>) returns (r: string)
    requires toks != [End] && Renders(text, toks)
    ensures toks != [] && toks[0] != End && toks[0] != Bad
    ensures Renders(r, toks[1..]) && Lex(text) == [toks[0]] + Lex(r)
  {
    var b: string, l: string, rest: string :|
      && text == b + (l + rest) && IsBlank(b)
      && IsLexeme(toks[0], l) && Separate(toks[0], rest) && Renders(rest, toks[1..]);
    LexemeRead(toks[0], l, rest);
    BlankBefore(b, l + rest, toks[0], rest);
    r := rest;
  }

  lemma LexBlank(text: string)
    requires IsBlank(text)
    ensures Lex(text) == [End]
  {
    SkipBlank(text, "");
    assert text + "" == text;
  }

  /** Whatever the layout, the tokens are read back. */
  lemma {:induction false} LexRenders(text: string, toks: seq<Token>)
    requires Renders(text, toks)
    ensures Lex(text) == toks
    decreases toks
  {
    if toks == [End] {
      LexBlank(text);
    } else {
      var r := RenderStep(text, toks);
      LexRenders(r, toks[1..]);
      assert toks == [toks[0]] + toks[1..];
    }
  }
}
