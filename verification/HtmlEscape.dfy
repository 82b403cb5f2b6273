/** HTML escaping (base/escape.cc), on strings of 16-bit code units. */
module HtmlEscapes {

  type Unit = x: int | 0 <= x < 0x1_0000

  const AMP: Unit := 0x26

  /** '<', '>', '&', '"' and the apostrophe, in the order of the two tables. */
  const KEYS: seq<Unit> := [0x3C, 0x3E, 0x26, 0x22, 0x27]

  /** &lt; &gt; &amp; &quot; &#39; */
  const CODES: seq<seq<Unit>> := [
    [0x26, 0x6C, 0x74, 0x3B],
    [0x26, 0x67, 0x74, 0x3B],
    [0x26, 0x61, 0x6D, 0x70, 0x3B],
    [0x26, 0x71, 0x75, 0x6F, 0x74, 0x3B],
    [0x26, 0x23, 0x33, 0x39, 0x3B]
  ]

  /** Index of c in KEYS, or 5. */
  function KeyIndex(c: Unit): (k: nat)
    ensures k <= 5 && (k < 5 <==> c in KEYS) && (k < 5 ==> KEYS[k] == c)
  {
    if c == 0x3C then 0 else if c == 0x3E then 1 else if c == 0x26 then 2 else if c == 0x22 then 3
    else if c == 0x27 then 4 else 5
  }

  function EscapeUnit(c: Unit): seq<Unit> {
    if KeyIndex(c) < 5 then CODES[KeyIndex(c)] else [c]
  }

  function EscapedForHTML(s: seq<Unit>): seq<Unit> {
    if s == [] then [] else EscapeUnit(s[0]) + EscapedForHTML(s[1..])
  }

  /** `AppendEscapedCharForHTMLImpl`: a search through the table. */
  method AppendEscapedCharForHTML(c: Unit, output: seq<Unit>) returns (r: seq<Unit>)
    ensures r == output + EscapeUnit(c)
  {
    var k := 0;
    while k < 5
      invariant 0 <= k <= 5
      invariant forall j :: 0 <= j < k ==> KEYS[j] != c
    {
      if c == KEYS[k] {
        return output + CODES[k];
      }
      k := k + 1;
    }
    r := output + [c];
  }

  method EscapeForHTML(input: seq<Unit>) returns (result: seq<Unit>)
    ensures result == EscapedForHTML(input)
  {
    result := [];
    var i := 0;
    assert input[0..] == input;
    while i < |input|
      invariant 0 <= i <= |input|
      invariant result + EscapedForHTML(input[i..]) == EscapedForHTML(input)
    {
      ghost var before := result;
      result := AppendEscapedCharForHTML(input[i], result);
      EscapedStep(input, i, before);
      hide EscapedForHTML, EscapeUnit;
      i := i + 1;
    }
  }

  lemma EscapedStep(s: seq<Unit>, i: nat, done: seq<Unit>)
    requires i < |s|
    ensures done + EscapedForHTML(s[i..]) == (done + EscapeUnit(s[i])) + EscapedForHTML(s[i + 1..])
  {
    hide EscapeUnit;
    assert s[i..][1..] == s[i + 1..];
  }

  // ----- Unescaping --------------------------------------------------------------------------------

  /** Index of the code that t starts with, or 5. */
  function CodeIndex(t: seq<Unit>): (k: nat)
    ensures k <= 5 && (k < 5 ==> CODES[k] <= t) && (forall j :: 0 <= j < k ==> !(CODES[j] <= t))
  {
    if CODES[0] <= t then 0 else if CODES[1] <= t then 1 else if CODES[2] <= t then 2
    else if CODES[3] <= t then 3 else if CODES[4] <= t then 4 else 5
  }

  function UnescapedForHTML(t: seq<Unit>): seq<Unit>
    decreases |t|
  {
    if t == [] then []
    else if CodeIndex(t) < 5 then [KEYS[CodeIndex(t)]] + UnescapedForHTML(t[|CODES[CodeIndex(t)]|..])
    else [t[0]] + UnescapedForHTML(t[1..])
  }

  /** text[..i] is final and unescaping the rest completes the job. */
  ghost predicate UnescapedTo(input: seq<Unit>, text: seq<Unit>, i: nat) {
    i <= |text| && text[..i] + UnescapedForHTML(text[i..]) == UnescapedForHTML(input)
  }

  /** `text.replace(iter, iter + length, 1, replacement)` where one of the codes is found. */
  method ReplaceCode(text: seq<Unit>, index: nat) returns (r: seq<Unit>)
    requires index < |text| && text[index] == AMP
    ensures var k := CodeIndex(text[index..]);
            r == if k < 5 then text[..index] + [KEYS[k]] + text[index + |CODES[k]|..] else text
  {
    var i := 0;
    while i < 5
      invariant 0 <= i <= 5
      invariant forall j :: 0 <= j < i ==> !(CODES[j] <= text[index..])
    {
      if CODES[i] <= text[index..] {
        return text[..index] + [KEYS[i]] + text[index + |CODES[i]|..];
      }
      i := i + 1;
    }
    r := text;
  }

  /** `UnescapeForHTML`, rewriting the text in place behind a moving position. */
  method UnescapeForHTML(input: seq<Unit>) returns (text: seq<Unit>)
    ensures text == UnescapedForHTML(input)
  {
    text := input;
    if AMP !in input {
      NothingToUnescape(input);
      return;
    }
    var i := 0;
    assert text[..0] == [] && text[0..] == text;
    while i < |text|
      invariant 0 <= i <= |text| && UnescapedTo(input, text, i)
      decreases |text| - i
    {
      hide UnescapedTo;
      UnescapeStep(input, text, i);
      if text[i] == AMP {
        text := ReplaceCode(text, i);
      }
      i := i + 1;
    }
    assert text[i..] == [] && text[..i] == text;
  }

  lemma {:induction false} NothingToUnescape(t: seq<Unit>)
    requires AMP !in t
    ensures UnescapedForHTML(t) == t
  {
    if t != [] {
      NotAmp(t);
      NothingToUnescape(t[1..]);
      assert t == [t[0]] + t[1..];
    }
  }

  lemma NotAmp(t: seq<Unit>)
    requires t != [] && t[0] != AMP
    ensures CodeIndex(t) == 5
  {
  }

  lemma UnescapeStep(input: seq<Unit>, text: seq<Unit>, i: nat)
    requires UnescapedTo(input, text, i) && i < |text|
    ensures text[i] != AMP ==> UnescapedTo(input, text, i + 1)
    ensures text[i] == AMP ==>
              var k := CodeIndex(text[i..]);
              var r := if k < 5 then text[..i] + [KEYS[k]] + text[i + |CODES[k]|..] else text;
              i < |r| <= |text| && UnescapedTo(input, r, i + 1)
  {
    hide CodeIndex, UnescapedTo, UnescapedForHTML;
    if text[i] != AMP { NotAmp(text[i..]); }
    if CodeIndex(text[i..]) < 5 {
      CodeStep(input, text, i, CodeIndex(text[i..]));
    } else {
      PlainStep(input, text, i);
    }
  }

  lemma PlainStep(input: seq<Unit>, text: seq<Unit>, i: nat)
    requires UnescapedTo(input, text, i) && i < |text| && CodeIndex(text[i..]) == 5
    ensures UnescapedTo(input, text, i + 1)
  {
    hide CodeIndex;
    assert text[i..][1..] == text[i + 1..];
    Shift(text[..i], text[i], UnescapedForHTML(text[i + 1..]));
    assert text[..i + 1] == text[..i] + [text[i]];
  }

  lemma CodeStep(input: seq<Unit>, text: seq<Unit>, i: nat, k: nat)
    requires UnescapedTo(input, text, i) && i < |text| && k == CodeIndex(text[i..]) < 5
    ensures i + |CODES[k]| <= |text|
    ensures UnescapedTo(input, text[..i] + [KEYS[k]] + text[i + |CODES[k]|..], i + 1)
  {
    hide CodeIndex;
    var n := |CODES[k]|;
    var r := text[..i] + [KEYS[k]] + text[i + n..];
    assert text[i..][n..] == text[i + n..];
    Shift(text[..i], KEYS[k], UnescapedForHTML(text[i + n..]));
    assert r[..i + 1] == text[..i] + [KEYS[k]] && r[i + 1..] == text[i + n..];
  }

  lemma Shift(a: seq<Unit>, c: Unit, b: seq<Unit>)
    ensures a + ([c] + b) == (a + [c]) + b
  {
  }

  // ----- Laws -----------------------------------------------------------------------------------------

  /** A code in front is read back as the character it stands for. */
  lemma CodeIsRead(k: nat, x: seq<Unit>)
    requires k < 5
    ensures CodeIndex(CODES[k] + x) == k
  {
    var t := CODES[k] + x;
    assert CODES[k] <= t;
    assert t[1] == CODES[k][1] && t[2] == CODES[k][2];
  }

  /** `UnescapeForHTML` undoes `EscapeForHTML` on every string. */
  lemma {:induction false} HtmlRoundTrip(s: seq<Unit>)
    ensures UnescapedForHTML(EscapedForHTML(s)) == s
  {
    if s != [] {
      HtmlRoundTrip(s[1..]);
      var x := EscapedForHTML(s[1..]);
      var k := KeyIndex(s[0]);
      if k < 5 {
        CodeIsRead(k, x);
        assert (CODES[k] + x)[|CODES[k]|..] == x;
      } else {
        NotAmp([s[0]] + x);
        assert ([s[0]] + x)[1..] == x;
      }
      assert s == [s[0]] + s[1..];
    }
  }

  /** Escaped text has no markup characters, and every '&' in it starts one of the codes. */
  lemma {:induction false} EscapedIsInert(s: seq<Unit>, i: nat)
    requires i < |EscapedForHTML(s)|
    ensures EscapedForHTML(s)[i] !in [0x3C, 0x3E, 0x22, 0x27]
    ensures EscapedForHTML(s)[i] == AMP ==> CodeIndex(EscapedForHTML(s)[i..]) < 5
  {
    var e, x := EscapeUnit(s[0]), EscapedForHTML(s[1..]);
    var u := EscapedForHTML(s);
    assert u == e + x;
    if i < |e| {
      assert u[i] == e[i];
      if i == 0 {
        assert u[0..] == u;
        if KeyIndex(s[0]) < 5 { CodeIsRead(KeyIndex(s[0]), x); }
      }
    } else {
      EscapedIsInert(s[1..], i - |e|);
      assert u[i..] == x[i - |e|..];
    }
  }

  // ----- Characters ------------------------------------------------------------------------------------

  /** t starts with that text. */
  predicate Starts(t: seq<Unit>, text: string) {
    |text| <= |t| && forall i :: 0 <= i < |text| ==> t[i] == text[i] as int
  }

  lemma CodeTexts(t: seq<Unit>)
    ensures CODES[0] <= t <==> Starts(t, "&lt;")
    ensures CODES[1] <= t <==> Starts(t, "&gt;")
    ensures CODES[2] <= t <==> Starts(t, "&amp;")
    ensures CODES[3] <= t <==> Starts(t, "&quot;")
    ensures CODES[4] <= t <==> Starts(t, "&#39;")
  {
    var a: string, b: string, c: string, d: string, e: string := "&lt;", "&gt;", "&amp;", "&quot;", "&#39;";
    SameText(CODES[0], t, a);
    SameText(CODES[1], t, b);
    SameText(CODES[2], t, c);
    SameText(CODES[3], t, d);
    SameText(CODES[4], t, e);
  }

  lemma SameText(u: seq<Unit>, t: seq<Unit>, text: string)
    requires |u| == |text| && Starts(u, text)
    ensures u <= t <==> Starts(t, text)
  {
  }

  /** What each character is written as. */
  lemma EscapedTexts(c: Unit)
    ensures c == '<' as int ==> |EscapeUnit(c)| == 4 && Starts(EscapeUnit(c), "&lt;")
    ensures c == '>' as int ==> |EscapeUnit(c)| == 4 && Starts(EscapeUnit(c), "&gt;")
    ensures c == '&' as int ==> |EscapeUnit(c)| == 5 && Starts(EscapeUnit(c), "&amp;")
    ensures c == '"' as int ==> |EscapeUnit(c)| == 6 && Starts(EscapeUnit(c), "&quot;")
    ensures c == '\'' as int ==> |EscapeUnit(c)| == 5 && Starts(EscapeUnit(c), "&#39;")
    ensures c != '<' as int && c != '>' as int && c != '&' as int && c != '"' as int && c != '\'' as int ==> EscapeUnit(c) == [c]
  {
    CodeTexts(EscapeUnit(c));
  }

  /** What each code is read as; everything else is copied. */
  lemma ReadTexts(t: seq<Unit>)
    requires t != []
    ensures UnescapedForHTML(t)
            == if Starts(t, "&lt;") then ['<' as int] + UnescapedForHTML(t[4..])
               else if Starts(t, "&gt;") then ['>' as int] + UnescapedForHTML(t[4..])
               else if Starts(t, "&amp;") then ['&' as int] + UnescapedForHTML(t[5..])
               else if Starts(t, "&quot;") then ['"' as int] + UnescapedForHTML(t[6..])
               else if Starts(t, "&#39;") then ['\'' as int] + UnescapedForHTML(t[5..])
               else [t[0]] + UnescapedForHTML(t[1..])
  {
    CodeTexts(t);
    hide Starts;
  }
}
