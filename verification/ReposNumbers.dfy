/** Numbers as the repository file writes and reads them. */
module ReposNumbers {
  import opened Wrappers
  import opened ReposLexer

  function DigitChar(d: nat): (c: char)
    requires d < 16
    ensures IsHexDigit(c) && (d < 10 ==> IsDigit(c))
  {
    if d < 10 then '0' + d as char else 'a' + (d - 10) as char
  }

  /** Digits above nine are lower-case letters. */
  lemma DigitText(d: nat)
    requires d < 16
    ensures DigitChar(d) == "0123456789abcdef"[d]
  {
    if d >= 10 {
      assert "0123456789abcdef"[10..] == "abcdef";
      assert "abcdef"[d - 10] == 'a' + (d - 10) as char;
    } else {
      assert "0123456789"[d] == '0' + d as char;
    }
  }

  /** The value of a digit character; 16 if it is none. */
  function DigitValue(c: char): nat {
    if IsDigit(c) then (c - '0') as nat
    else if 'a' <= c <= 'f' then (c - 'a') as nat + 10
    else if 'A' <= c <= 'F' then (c - 'A') as nat + 10
    else 16
  }

  /** Digits without leading zeros. */
  function Digits(v: nat, base: nat): (s: string)
    requires 2 <= base <= 16
    ensures s != "" && AllChars(s, IsHexDigit) && (base <= 10 ==> AllChars(s, IsDigit))
  {
    if v < base then [DigitChar(v)] else Digits(v / base, base) + [DigitChar(v % base)]
  }

  function Value(s: string, base: nat): Option<nat>
    requires 2 <= base <= 16
  {
    if s == "" then Some(0)
    else
      var d := DigitValue(s[|s| - 1]);
      match Value(s[..|s| - 1], base)
      case None => None
      case Some(v) => if d < base then Some(v * base + d) else None
  }

  lemma ValueOneMore(s: string, d: nat, base: nat)
    requires 2 <= base <= 16 && d < base && Value(s, base).Some?
    ensures Value(s + [DigitChar(d)], base) == Some(Value(s, base).value * base + d)
  {
    assert (s + [DigitChar(d)])[..|s|] == s;
  }

  lemma DivideBack(v: nat, base: nat, q: nat, r: nat)
    requires base >= 2 && q == v / base && r == v % base
    ensures q * base + r == v && r < base && (v >= base ==> q < v)
  {
  }

  lemma DigitsStep(v: nat, base: nat) returns (q: nat, r: nat)
    requires 2 <= base <= 16 && v >= base
    ensures q < v && r < base && q * base + r == v
    ensures Digits(v, base) == Digits(q, base) + [DigitChar(r)]
  {
    q, r := v / base, v % base;
    DivideBack(v, base, q, r);
  }

  /** Digits are read back. */
  lemma {:induction false} ValueOfDigits(v: nat, base: nat)
    requires 2 <= base <= 16
    ensures Value(Digits(v, base), base) == Some(v)
    decreases v
  {
    if v < base {
      ValueOneMore("", v, base);
      assert "" + [DigitChar(v)] == [DigitChar(v)];
    } else {
      var q, r := DigitsStep(v, base);
      ValueOfDigits(q, base);
      ValueOneMore(Digits(q, base), r, base);
    }
  }

  function Zeros(n: nat): (z: string)
    ensures |z| == n && AllChars(z, IsDigit) && AllChars(z, IsHexDigit)
  {
    seq(n, _ => '0')
  }

  /** Leading zeros do not matter. */
  lemma {:induction false} ValueOfPadded(n: nat, s: string, base: nat)
    requires 2 <= base <= 16
    ensures Value(Zeros(n) + s, base) == Value(s, base)
    decreases n + |s|
  {
    if s == "" {
      assert Zeros(n) + s == Zeros(n);
      if n > 0 {
        assert Zeros(n)[..n - 1] == Zeros(n - 1) + "";
        ValueOfPadded(n - 1, "", base);
      }
    } else {
      assert (Zeros(n) + s)[..n + |s| - 1] == Zeros(n) + s[..|s| - 1];
      ValueOfPadded(n, s[..|s| - 1], base);
    }
  }

  /** A number without leading zeros starts with a zero only if it is one. */
  lemma {:induction false} NoLeadingZero(v: nat)
    ensures Digits(v, 10)[0] == '0' ==> v == 0 && Digits(v, 10) == "0"
  {
    if v >= 10 {
      NoLeadingZero(v / 10);
    }
  }

  /** The value of a magnitude: `0x` marks hexadecimal digits and another leading zero octal ones. */
  function ParseMagnitude(u: string): Option<nat> {
    if u == "" then None
    else if |u| > 1 && u[0] == '0' && (u[1] == 'x' || u[1] == 'X') then
      if |u| > 2 then Value(u[2..], 16) else None
    else if |u| > 1 && u[0] == '0' then Value(u[1..], 8)
    else Value(u, 10)
  }

  function ParseBigInt(tok: string): Option<int> {
    if tok != "" && tok[0] == '-' then
      match ParseMagnitude(tok[1..])
      case None => None
      case Some(v) => var w: int := 0 - v; Some(w)
    else
      match ParseMagnitude(tok)
      case None => None
      case Some(v) => var w: int := v; Some(w)
  }

  // ---------- Printed numbers ----------

  function Abs(v: int): nat {
    if v < 0 then -v else v
  }

  function Signed(v: int, magnitude: string): string {
    (if v < 0 then "-" else "") + magnitude
  }

  /** Decimal. */
  function DecText(v: int): string {
    Signed(v, Digits(Abs(v), 10))
  }

  /** Hexadecimal behind `0x`, padded with zeros to at least `width` digits. */
  function HexMagnitude(v: nat, width: nat): string {
    "0x" + (Zeros(if |Digits(v, 16)| < width then width - |Digits(v, 16)| else 0) + Digits(v, 16))
  }

  function HexText(v: int, width: nat): string {
    Signed(v, HexMagnitude(Abs(v), width))
  }

  lemma SignedRoundTrip(v: int, u: string)
    requires IsMagnitude(u) && ParseMagnitude(u) == Some(Abs(v))
    ensures IsNumText(Signed(v, u)) && ParseBigInt(Signed(v, u)) == Some(v)
  {
    if v < 0 {
      assert Signed(v, u)[1..] == u;
    } else {
      assert Signed(v, u) == u;
      assert IsDigit(u[0]);
    }
  }

  /** Decimal numbers are read back. */
  lemma DecRoundTrip(v: int)
    ensures IsNumText(DecText(v)) && ParseBigInt(DecText(v)) == Some(v)
  {
    var u := Digits(Abs(v), 10);
    NoLeadingZero(Abs(v));
    ValueOfDigits(Abs(v), 10);
    assert |u| > 1 && u[0] == '0' ==> false;
    SignedRoundTrip(v, u);
  }

  /** Hexadecimal numbers are read back, whatever their width. */
  lemma HexRoundTrip(v: int, width: nat)
    ensures IsNumText(HexText(v, width)) && ParseBigInt(HexText(v, width)) == Some(v)
  {
    var d := Digits(Abs(v), 16);
    var pad := if |d| < width then width - |d| else 0;
    var u := HexMagnitude(Abs(v), width);
    assert u[2..] == Zeros(pad) + d;
    ValueOfDigits(Abs(v), 16);
    ValueOfPadded(pad, d, 16);
    SignedRoundTrip(v, u);
  }
}
