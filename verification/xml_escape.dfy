/** `escapeXml`: the five reserved characters of XML 1.0 are written as
    entity references (section 4.6 of XML 1.0 for `&`, `<`, `>`, `"`), except
    that an apostrophe becomes the character reference `&#x2019;` (a
    typographic right single quotation mark) instead of `&apos;`. */
module XmlEscape {
  import opened Strings

  const RightQuote: char := '\U{2019}'

  /** JavaScript `s.replace(/c/g, rep)` for a one-character pattern. */
  function ReplaceEvery(s: string, c: char, rep: string): (r: string)
    ensures c !in rep ==> c !in r
  {
    if |s| == 0 then []
    else (if s[0] == c then rep else [s[0]]) + ReplaceEvery(s[1..], c, rep)
  }

  /** The source's chain of five global replacements, in its order. */
  function EscapeXml(text: string): string
  {
    ReplaceEvery(ReplaceEvery(ReplaceEvery(ReplaceEvery(ReplaceEvery(
      text, '&', "&amp;"), '<', "&lt;"), '>', "&gt;"), '"', "&quot;"), '\'', "&#x2019;")
  }

  /** Reference definition: each character escaped on its own. */
  function EscapeChar(c: char): string
  {
    if c == '&' then "&amp;"
    else if c == '<' then "&lt;"
    else if c == '>' then "&gt;"
    else if c == '"' then "&quot;"
    else if c == '\'' then "&#x2019;"
    else [c]
  }

  function EscapeChars(text: string): string
  {
    if |text| == 0 then [] else EscapeChar(text[0]) + EscapeChars(text[1..])
  }

  lemma {:induction false} ReplaceEveryConcat(a: string, b: string, c: char, rep: string)
    ensures ReplaceEvery(a + b, c, rep) == ReplaceEvery(a, c, rep) + ReplaceEvery(b, c, rep)
    decreases |a|
  {
    if |a| > 0 {
      assert (a + b)[1..] == a[1..] + b;
      ReplaceEveryConcat(a[1..], b, c, rep);
    } else {
      assert a + b == b;
    }
  }

  lemma {:induction false} ReplaceEveryAbsent(s: string, c: char, rep: string)
    requires c !in s
    ensures ReplaceEvery(s, c, rep) == s
    decreases |s|
  {
    if |s| > 0 {
      ReplaceEveryAbsent(s[1..], c, rep);
    }
  }

  lemma EscapeXmlConcat(a: string, b: string)
    ensures EscapeXml(a + b) == EscapeXml(a) + EscapeXml(b)
  {
    var s1a, s1b := ReplaceEvery(a, '&', "&amp;"), ReplaceEvery(b, '&', "&amp;");
    ReplaceEveryConcat(a, b, '&', "&amp;");
    var s2a, s2b := ReplaceEvery(s1a, '<', "&lt;"), ReplaceEvery(s1b, '<', "&lt;");
    ReplaceEveryConcat(s1a, s1b, '<', "&lt;");
    var s3a, s3b := ReplaceEvery(s2a, '>', "&gt;"), ReplaceEvery(s2b, '>', "&gt;");
    ReplaceEveryConcat(s2a, s2b, '>', "&gt;");
    var s4a, s4b := ReplaceEvery(s3a, '"', "&quot;"), ReplaceEvery(s3b, '"', "&quot;");
    ReplaceEveryConcat(s3a, s3b, '"', "&quot;");
    ReplaceEveryConcat(s4a, s4b, '\'', "&#x2019;");
  }

  lemma ReplaceSingle(c: char, d: char, rep: string)
    ensures ReplaceEvery([c], d, rep) == if c == d then rep else [c]
  {
    assert [c][1..] == [];
  }

  /** The replacement texts hold none of the characters a later step
      rewrites, and none of them holds `&`. */
  lemma EntitiesQuiet()
    ensures '<' !in "&amp;" && '>' !in "&amp;" && '"' !in "&amp;" && '\'' !in "&amp;"
    ensures '>' !in "&lt;" && '"' !in "&lt;" && '\'' !in "&lt;"
    ensures '"' !in "&gt;" && '\'' !in "&gt;"
    ensures '\'' !in "&quot;"
  {
  }

  /** Because `&` is replaced first and no replacement text holds a
      character that a later step rewrites, the chain escapes each character
      exactly once. */
  lemma EscapeXmlSingle(c: char)
    ensures EscapeXml([c]) == EscapeChar(c)
  {
    EntitiesQuiet();
    var s1 := ReplaceEvery([c], '&', "&amp;");
    ReplaceSingle(c, '&', "&amp;");
    if c == '&' {
      ReplaceEveryAbsent(s1, '<', "&lt;");
      ReplaceEveryAbsent(s1, '>', "&gt;");
      ReplaceEveryAbsent(s1, '"', "&quot;");
      ReplaceEveryAbsent(s1, '\'', "&#x2019;");
      return;
    }
    var s2 := ReplaceEvery(s1, '<', "&lt;");
    ReplaceSingle(c, '<', "&lt;");
    if c == '<' {
      ReplaceEveryAbsent(s2, '>', "&gt;");
      ReplaceEveryAbsent(s2, '"', "&quot;");
      ReplaceEveryAbsent(s2, '\'', "&#x2019;");
      return;
    }
    var s3 := ReplaceEvery(s2, '>', "&gt;");
    ReplaceSingle(c, '>', "&gt;");
    if c == '>' {
      ReplaceEveryAbsent(s3, '"', "&quot;");
      ReplaceEveryAbsent(s3, '\'', "&#x2019;");
      return;
    }
    var s4 := ReplaceEvery(s3, '"', "&quot;");
    ReplaceSingle(c, '"', "&quot;");
    if c == '"' {
      ReplaceEveryAbsent(s4, '\'', "&#x2019;");
      return;
    }
    ReplaceSingle(c, '\'', "&#x2019;");
  }

  /** The chain agrees with the character-by-character reference. */
  lemma {:induction false} EscapeXmlIsCharwise(text: string)
    ensures EscapeXml(text) == EscapeChars(text)
    decreases |text|
  {
    if |text| == 0 {
      ReplaceEveryAbsent(text, '&', "&amp;");
      ReplaceEveryAbsent(text, '<', "&lt;");
      ReplaceEveryAbsent(text, '>', "&gt;");
      ReplaceEveryAbsent(text, '"', "&quot;");
      ReplaceEveryAbsent(text, '\'', "&#x2019;");
    } else {
      assert text == [text[0]] + text[1..];
      EscapeXmlConcat([text[0]], text[1..]);
      EscapeXmlSingle(text[0]);
      EscapeXmlIsCharwise(text[1..]);
    }
  }

  /** Characters that may not appear literally in the escaped text. */
  predicate IsReserved(c: char)
  {
    c == '<' || c == '>' || c == '"' || c == '\''
  }

  /** Position `p` of `r` starts one of the references the escaper emits. */
  predicate StartsReference(r: string, p: nat)
  {
    HasPrefixAt(r, p, "&amp;") || HasPrefixAt(r, p, "&lt;") || HasPrefixAt(r, p, "&gt;")
    || HasPrefixAt(r, p, "&quot;") || HasPrefixAt(r, p, "&#x2019;")
  }

  /** The escaped text can be embedded as element content or an attribute
      value: it holds no reserved character, and every `&` in it begins a
      reference. */
  predicate Escaped(r: string)
  {
    && (forall p :: 0 <= p < |r| ==> !IsReserved(r[p]))
    && (forall p: nat :: p < |r| && r[p] == '&' ==> StartsReference(r, p))
  }

  lemma PrefixShift(x: string, y: string, j: nat, e: string)
    requires HasPrefixAt(y, j, e)
    ensures HasPrefixAt(x + y, |x| + j, e)
  {
    assert (x + y)[|x| + j..|x| + j + |e|] == y[j..j + |e|];
  }

  lemma PrefixHead(x: string, y: string, e: string)
    requires |e| <= |x| && x[..|e|] == e
    ensures HasPrefixAt(x + y, 0, e)
  {
    assert (x + y)[..|e|] == x[..|e|];
  }

  /** A reference stays a reference when text is put in front of it. */
  lemma ReferenceShift(e: string, rest: string, q: nat)
    requires StartsReference(rest, q)
    ensures StartsReference(e + rest, |e| + q)
  {
    if HasPrefixAt(rest, q, "&amp;") { PrefixShift(e, rest, q, "&amp;"); }
    else if HasPrefixAt(rest, q, "&lt;") { PrefixShift(e, rest, q, "&lt;"); }
    else if HasPrefixAt(rest, q, "&gt;") { PrefixShift(e, rest, q, "&gt;"); }
    else if HasPrefixAt(rest, q, "&quot;") { PrefixShift(e, rest, q, "&quot;"); }
    else { PrefixShift(e, rest, q, "&#x2019;"); }
  }

  /** Escaping one more character in front keeps the text escaped. */
  lemma EscapedCons(c: char, rest: string)
    requires Escaped(rest)
    ensures Escaped(EscapeChar(c) + rest)
  {
    var e := EscapeChar(c);
    var r := e + rest;
    forall p: nat | p < |r| && r[p] == '&'
      ensures StartsReference(r, p)
    {
      if p < |e| {
        assert p == 0 && e[..|e|] == e;
        PrefixHead(e, rest, e);
      } else {
        assert rest[p - |e|] == '&';
        ReferenceShift(e, rest, p - |e|);
      }
    }
    forall p | 0 <= p < |r|
      ensures !IsReserved(r[p])
    {
      if p >= |e| {
        assert r[p] == rest[p - |e|];
      }
    }
  }

  lemma {:induction false} EscapeCharsEscaped(text: string)
    ensures Escaped(EscapeChars(text))
    decreases |text|
  {
    if |text| > 0 {
      EscapeCharsEscaped(text[1..]);
      EscapedCons(text[0], EscapeChars(text[1..]));
    }
  }

  /** `escapeXml` output is safe markup text. */
  lemma EscapeXmlEscaped(text: string)
    ensures Escaped(EscapeXml(text))
    ensures '<' !in EscapeXml(text)
  {
    EscapeXmlIsCharwise(text);
    EscapeCharsEscaped(text);
  }

  /** Text without `&` or reserved characters passes through unchanged. */
  lemma {:induction false} EscapeCharsPlain(text: string)
    requires forall p :: 0 <= p < |text| ==> text[p] != '&' && !IsReserved(text[p])
    ensures EscapeChars(text) == text
    decreases |text|
  {
    if |text| > 0 {
      EscapeCharsPlain(text[1..]);
      assert text == [text[0]] + text[1..];
    }
  }

  lemma EscapeXmlPlain(text: string)
    requires forall p :: 0 <= p < |text| ==> text[p] != '&' && !IsReserved(text[p])
    ensures EscapeXml(text) == text
  {
    EscapeXmlIsCharwise(text);
    EscapeCharsPlain(text);
  }

  /** What an XML reader shows for escaped text: references decoded,
      everything else kept. */
  function Unescape(r: string): string
    decreases |r|
  {
    if |r| == 0 then []
    else if HasPrefixAt(r, 0, "&amp;") then ['&'] + Unescape(r[5..])
    else if HasPrefixAt(r, 0, "&lt;") then ['<'] + Unescape(r[4..])
    else if HasPrefixAt(r, 0, "&gt;") then ['>'] + Unescape(r[4..])
    else if HasPrefixAt(r, 0, "&quot;") then ['"'] + Unescape(r[6..])
    else if HasPrefixAt(r, 0, "&#x2019;") then [RightQuote] + Unescape(r[8..])
    else [r[0]] + Unescape(r[1..])
  }

  /** The text with every apostrophe turned into U+2019. */
  function Typographic(text: string): string
  {
    if |text| == 0 then []
    else [if text[0] == '\'' then RightQuote else text[0]] + Typographic(text[1..])
  }

  lemma UnescapeAmp(rest: string)
    ensures Unescape("&amp;" + rest) == ['&'] + Unescape(rest)
  {
    var r := "&amp;" + rest;
    PrefixHead("&amp;", rest, "&amp;");
    assert r[5..] == rest;
  }

  lemma UnescapeLt(rest: string)
    ensures Unescape("&lt;" + rest) == ['<'] + Unescape(rest)
  {
    var r := "&lt;" + rest;
    PrefixHead("&lt;", rest, "&lt;");
    assert !HasPrefixAt(r, 0, "&amp;") by { assert r[1] == 'l'; }
    assert r[4..] == rest;
  }

  lemma UnescapeGt(rest: string)
    ensures Unescape("&gt;" + rest) == ['>'] + Unescape(rest)
  {
    var r := "&gt;" + rest;
    PrefixHead("&gt;", rest, "&gt;");
    assert !HasPrefixAt(r, 0, "&amp;") && !HasPrefixAt(r, 0, "&lt;") by { assert r[1] == 'g'; }
    assert r[4..] == rest;
  }

  lemma UnescapeQuot(rest: string)
    ensures Unescape("&quot;" + rest) == ['"'] + Unescape(rest)
  {
    var r := "&quot;" + rest;
    PrefixHead("&quot;", rest, "&quot;");
    assert !HasPrefixAt(r, 0, "&amp;") && !HasPrefixAt(r, 0, "&lt;") && !HasPrefixAt(r, 0, "&gt;") by {
      assert r[1] == 'q';
    }
    assert r[6..] == rest;
  }

  lemma UnescapeApos(rest: string)
    ensures Unescape("&#x2019;" + rest) == [RightQuote] + Unescape(rest)
  {
    var r := "&#x2019;" + rest;
    PrefixHead("&#x2019;", rest, "&#x2019;");
    assert !HasPrefixAt(r, 0, "&amp;") && !HasPrefixAt(r, 0, "&lt;") && !HasPrefixAt(r, 0, "&gt;") by {
      assert r[1] == '#';
    }
    assert !HasPrefixAt(r, 0, "&quot;") by { assert r[1] == '#'; }
    assert r[8..] == rest;
  }

  /** Decoding undoes the escape of one character. */
  lemma UnescapeHead(e: string, rest: string, c: char)
    requires e == EscapeChar(c)
    ensures Unescape(e + rest) == [if c == '\'' then RightQuote else c] + Unescape(rest)
  {
    if c == '&' {
      UnescapeAmp(rest);
    } else if c == '<' {
      UnescapeLt(rest);
    } else if c == '>' {
      UnescapeGt(rest);
    } else if c == '"' {
      UnescapeQuot(rest);
    } else if c == '\'' {
      UnescapeApos(rest);
    } else {
      var r := e + rest;
      assert r[0] == c;
      assert r[1..] == rest;
    }
  }

  /** Decoding the escaped text gives back the original, except that each
      apostrophe reads as its typographic variant. */
  lemma {:induction false} UnescapeEscapeChars(text: string)
    ensures Unescape(EscapeChars(text)) == Typographic(text)
    decreases |text|
  {
    if |text| > 0 {
      UnescapeHead(EscapeChar(text[0]), EscapeChars(text[1..]), text[0]);
      UnescapeEscapeChars(text[1..]);
    }
  }

  lemma UnescapeEscapeXml(text: string)
    ensures Unescape(EscapeXml(text)) == Typographic(text)
  {
    EscapeXmlIsCharwise(text);
    UnescapeEscapeChars(text);
  }
}
