/** The architectures that are supported. */
module SMVersion {
  import opened Wrappers
  import opened ReposLexer
  import opened ReposNumbers

  const SM_VERSIONS: seq<int> := [60, 61, 62, 70, 72, 75, 80, 86, 87]

  function UpperChar(c: char): char {
    if 'a' <= c <= 'z' then 'A' + (c - 'a') else c
  }

  function Upper(s: string): (u: string)
    ensures |u| == |s|
  {
    seq(|s|, i requires 0 <= i < |s| => UpperChar(s[i]))
  }

  /** The text names the version: its digits, by themselves or behind `SM` or `SM_` in any case. */
  predicate Names(version: int, text: string) {
    Upper(text) in {DecText(version), "SM" + DecText(version), "SM_" + DecText(version)}
  }

  /** The text names a supported version. */
  predicate IsSupported(text: string) {
    exists i :: 0 <= i < |SM_VERSIONS| && Names(SM_VERSIONS[i], text)
  }

  /** What may stand in front of the digits of a version. */
  predicate IsPrefix(p: string) {
    p in ["", "SM", "Sm", "sM", "sm", "SM_", "Sm_", "sM_", "sm_"]
  }

  lemma UpperConcat(s: string, t: string)
    ensures Upper(s + t) == Upper(s) + Upper(t)
  {
  }

  lemma UpperOf(c: char)
    ensures UpperChar(c) == 'S' <==> c == 'S' || c == 's'
    ensures UpperChar(c) == 'M' <==> c == 'M' || c == 'm'
    ensures UpperChar(c) == '_' <==> c == '_'
  {
  }

  lemma UpperTwo(p: string)
    requires |p| == 2
    ensures Upper(p) == "SM" <==> p in ["SM", "Sm", "sM", "sm"]
  {
    UpperOf(p[0]);
    UpperOf(p[1]);
    assert p == [p[0], p[1]] && Upper(p) == [UpperChar(p[0]), UpperChar(p[1])];
  }

  lemma UpperThree(p: string)
    requires |p| == 3
    ensures Upper(p) == "SM_" <==> p in ["SM_", "Sm_", "sM_", "sm_"]
  {
    UpperOf(p[0]);
    UpperOf(p[1]);
    UpperOf(p[2]);
    assert p == [p[0], p[1], p[2]] && Upper(p) == [UpperChar(p[0]), UpperChar(p[1]), UpperChar(p[2])];
  }

  /** Exactly the prefixes in any case become one of the three in upper case. */
  lemma UpperPrefix(p: string)
    ensures Upper(p) in ["", "SM", "SM_"] <==> IsPrefix(p)
  {
    if |p| == 2 {
      UpperTwo(p);
    } else if |p| == 3 {
      UpperThree(p);
    }
  }

  lemma {:induction false} UpperDigits(t: string, version: int)
    ensures Upper(t) == DecText(version) <==> t == DecText(version)
  {
    var digits := DecText(version);
    assert AllChars(Digits(Abs(version), 10), IsDigit);
    assert forall i :: 0 <= i < |digits| ==> IsDigit(digits[i]) || digits[i] == '-';
    if Upper(t) == digits {
      forall i | 0 <= i < |t|
        ensures t[i] == digits[i]
      {
        assert Upper(t)[i] == digits[i];
      }
    }
    if t == digits {
      assert Upper(t) == digits;
    }
  }

  /** Behind a prefix of any case there are the digits of the version as they are. */
  lemma {:induction false} NamesBehind(version: int, text: string, prefix: string)
    requires prefix in ["", "SM", "SM_"]
    ensures Upper(text) == prefix + DecText(version) <==>
            exists p :: Upper(p) == prefix && text == p + DecText(version)
  {
    if Upper(text) == prefix + DecText(version) {
      var p, t := text[..|prefix|], text[|prefix|..];
      assert text == p + t;
      UpperConcat(p, t);
      assert Upper(p) == (prefix + DecText(version))[..|prefix|] == prefix;
      assert Upper(t) == (prefix + DecText(version))[|prefix|..] == DecText(version);
      UpperDigits(t, version);
    }
    if exists p :: Upper(p) == prefix && text == p + DecText(version) {
      var p :| Upper(p) == prefix && text == p + DecText(version);
      UpperConcat(p, DecText(version));
      UpperDigits(DecText(version), version);
    }
  }

  lemma {:induction false} NamesMeaning(version: int, text: string)
    ensures Names(version, text) <==> exists p {:trigger IsPrefix(p)} :: IsPrefix(p) && text == p + DecText(version)
  {
    NamesBehind(version, text, "");
    NamesBehind(version, text, "SM");
    NamesBehind(version, text, "SM_");
    assert "" + DecText(version) == DecText(version);
    if Names(version, text) {
      var prefix :| prefix in ["", "SM", "SM_"] && Upper(text) == prefix + DecText(version);
      var p :| Upper(p) == prefix && text == p + DecText(version);
      UpperPrefix(p);
    }
    if p {:trigger IsPrefix(p)} :| IsPrefix(p) && text == p + DecText(version) {
      UpperPrefix(p);
      UpperConcat(p, DecText(version));
      UpperDigits(DecText(version), version);
    }
  }

  /** The nine versions, by their digits behind nothing, `SM` or `SM_` in any case; and nothing else. */
  lemma {:induction false} SupportedTexts(text: string)
    ensures IsSupported(text) <==>
            exists version, p {:trigger IsPrefix(p), DecText(version)} ::
              && version in [60, 61, 62, 70, 72, 75, 80, 86, 87] && IsPrefix(p) && text == p + DecText(version)
  {
    forall version
      ensures Names(version, text) <==> exists p {:trigger IsPrefix(p)} :: IsPrefix(p) && text == p + DecText(version)
    {
      NamesMeaning(version, text);
    }
    if IsSupported(text) {
      var i :| 0 <= i < |SM_VERSIONS| && Names(SM_VERSIONS[i], text);
      assert SM_VERSIONS[i] in SM_VERSIONS;
    }
    if version, p {:trigger IsPrefix(p), DecText(version)} :|
      version in [60, 61, 62, 70, 72, 75, 80, 86, 87] && IsPrefix(p) && text == p + DecText(version) {
      assert Names(version, text);
      var i :| 0 <= i < |SM_VERSIONS| && SM_VERSIONS[i] == version;
    }
  }

  method ValidateVersionString(text: string) returns (r: Option<int>)
    ensures r.Some? <==> IsSupported(text)
    ensures r.Some? ==> r.value in SM_VERSIONS && Names(r.value, text)
    ensures r.Some? ==> exists p :: IsPrefix(p) && text == p + DecText(r.value)
  {
    for i := 0 to |SM_VERSIONS|
      invariant forall k :: 0 <= k < i ==> !Names(SM_VERSIONS[k], text)
    {
      if Names(SM_VERSIONS[i], text) {
        NamesMeaning(SM_VERSIONS[i], text);
        return Some(SM_VERSIONS[i]);
      }
    }
    return None;
  }
}
