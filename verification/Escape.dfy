/** Percent-escaping (base/escape.cc), on byte strings. Escapes are the triplets of
    section 2.1 of RFC 3986. */
module Escapes {
  import opened Basics
  import opened Powers

  const SPACE: Byte := 0x20
  const PERCENT: Byte := 0x25
  const PLUS: Byte := 0x2B
  const SLASH: Byte := 0x2F
  const BACKSLASH: Byte := 0x5C

  // ----- Hexadecimal ------------------------------------------------------------------------

  predicate IsHexDigit(c: Byte) { 0x30 <= c <= 0x39 || 0x41 <= c <= 0x46 || 0x61 <= c <= 0x66 }

  function HexDigitToInt(c: Byte): (r: int)
    requires IsHexDigit(c)
    ensures 0 <= r < 16
  {
    if c <= 0x39 then c - 0x30 else if c <= 0x46 then c - 0x41 + 10 else c - 0x61 + 10
  }

  function IntToHex(i: int): (c: Byte)
    requires 0 <= i < 16
    ensures IsHexDigit(c) && HexDigitToInt(c) == i && c < 0x60
  {
    if i < 10 then 0x30 + i else 0x41 + i - 10
  }

  /** The three bytes that stand for c. */
  function Triplet(c: Byte): (r: seq<Byte>)
    ensures |r| == 3 && EscapedByte(r) == Some(c)
  {
    [PERCENT, IntToHex(c / 16), IntToHex(c % 16)]
  }

  /** `UnescapeUnsignedCharAtIndex`: the byte that a leading triplet stands for. */
  function EscapedByte(t: seq<Byte>): Option<Byte> {
    if |t| > 2 && t[0] == PERCENT && IsHexDigit(t[1]) && IsHexDigit(t[2])
    then Some(HexDigitToInt(t[1]) * 16 + HexDigitToInt(t[2])) else None
  }

  // ----- Charmaps ----------------------------------------------------------------------------

  /** 256 bits in eight 32-bit words. */
  datatype Charmap = Charmap(words: seq<nat>) {

    predicate Valid() { |words| == 8 }

    predicate Contains(c: Byte)
      requires Valid()
    {
      (words[c / 32] / Pow2(c % 32)) % 2 == 1
    }
  }

  const QUERY: Charmap := Charmap([0xffffffff, 0xfc00987d, 0x78000001, 0xb8000001,
                                   0xffffffff, 0xffffffff, 0xffffffff, 0xffffffff])
  const PATH: Charmap := Charmap([0xffffffff, 0xd400002d, 0x78000000, 0xb8000001,
                                  0xffffffff, 0xffffffff, 0xffffffff, 0xffffffff])
  const URL_ESCAPE: Charmap := Charmap([0xffffffff, 0xf80008fd, 0x78000001, 0xb8000001,
                                        0xffffffff, 0xffffffff, 0xffffffff, 0xffffffff])
  const EXTERNAL_HANDLER: Charmap := Charmap([0xffffffff, 0x50000025, 0x50000000, 0xb8000001,
                                              0xffffffff, 0xffffffff, 0xffffffff, 0xffffffff])

  // ----- Escaping -----------------------------------------------------------------------------

  /** What the loop of `Escape` appends for the byte at the front of t. */
  function EscapeFront(t: seq<Byte>, m: Charmap, usePlus: bool, keepEscaped: bool): seq<Byte>
    requires t != [] && m.Valid()
  {
    if usePlus && t[0] == SPACE then [PLUS]
    else if keepEscaped && EscapedByte(t).Some? then [PERCENT]
    else if m.Contains(t[0]) then Triplet(t[0])
    else [t[0]]
  }

  function Escaped(t: seq<Byte>, m: Charmap, usePlus: bool, keepEscaped: bool): seq<Byte>
    requires m.Valid()
  {
    if t == [] then [] else EscapeFront(t, m, usePlus, keepEscaped) + Escaped(t[1..], m, usePlus, keepEscaped)
  }

  lemma Ahead(text: seq<Byte>, i: nat)
    requires i < |text|
    ensures EscapedByte(text[i..]).Some?
            <==> text[i] == PERCENT && i + 2 < |text| && IsHexDigit(text[i + 1]) && IsHexDigit(text[i + 2])
  {
  }

  lemma EscapedStep(text: seq<Byte>, i: nat, m: Charmap, usePlus: bool, keepEscaped: bool, done: seq<Byte>)
    requires i < |text| && m.Valid()
    ensures done + Escaped(text[i..], m, usePlus, keepEscaped)
            == (done + EscapeFront(text[i..], m, usePlus, keepEscaped)) + Escaped(text[i + 1..], m, usePlus, keepEscaped)
  {
    assert text[i..][1..] == text[i + 1..];
  }

  method Escape(text: seq<Byte>, m: Charmap, usePlus: bool, keepEscaped: bool) returns (escaped: seq<Byte>)
    requires m.Valid()
    ensures escaped == Escaped(text, m, usePlus, keepEscaped)
  {
    escaped := [];
    var i := 0;
    assert text[0..] == text;
    while i < |text|
      invariant 0 <= i <= |text|
      invariant escaped + Escaped(text[i..], m, usePlus, keepEscaped) == Escaped(text, m, usePlus, keepEscaped)
    {
      hide Charmap.Contains, EscapedByte, IsHexDigit, Escaped, IntToHex;
      ghost var before := escaped;
      var c := text[i];
      Ahead(text, i);
      EscapedStep(text, i, m, usePlus, keepEscaped, before);
      if usePlus && c == SPACE {
        escaped := escaped + [PLUS];
      } else if keepEscaped && c == PERCENT && i + 2 < |text| && IsHexDigit(text[i + 1]) && IsHexDigit(text[i + 2]) {
        escaped := escaped + [PERCENT];
      } else if m.Contains(c) {
        escaped := escaped + [PERCENT];
        escaped := escaped + [IntToHex(c / 16)];
        escaped := escaped + [IntToHex(c % 16)];
      } else {
        escaped := escaped + [c];
      }
      assert escaped == before + EscapeFront(text[i..], m, usePlus, keepEscaped);
      i := i + 1;
    }
  }

  function EscapeQueryParamValue(t: seq<Byte>, usePlus: bool): seq<Byte> { Escaped(t, QUERY, usePlus, false) }

  function EscapePath(t: seq<Byte>): seq<Byte> { Escaped(t, PATH, false, false) }

  function EscapeUrlEncodedData(t: seq<Byte>, usePlus: bool): seq<Byte> { Escaped(t, URL_ESCAPE, usePlus, false) }

  function EscapeExternalHandlerValue(t: seq<Byte>): seq<Byte> { Escaped(t, EXTERNAL_HANDLER, false, true) }

  // ----- Unescaping ------------------------------------------------------------------------------

  /** The flags of `UnescapeRule`; all false is NONE. */
  datatype Rules = Rules(normal: bool, spaces: bool, pathSeparators: bool, specials: bool,
                         spoofingAndControl: bool, plusToSpace: bool)

  const NONE: Rules := Rules(false, false, false, false, false, false)

  /** kUrlUnescape: digits, letters, and a few marks. */
  predicate UrlUnescape(c: Byte) {
    || c == 0x22 || c == 0x2D || 0x30 <= c <= 0x39 || c == 0x3C || c == 0x3E
    || 0x41 <= c <= 0x5A || c == 0x5F || 0x61 <= c <= 0x7A || c == 0x7E
  }

  predicate Allowed(c: Byte, r: Rules) {
    || c >= 0x80
    || UrlUnescape(c)
    || (c == SPACE && r.spaces)
    || ((c == SLASH || c == BACKSLASH) && r.pathSeparators)
    || (c > SPACE && c != SLASH && c != BACKSLASH && r.specials)
    || (c < SPACE && r.spoofingAndControl)
  }

  /** The byte the k-th triplet of a row of triplets stands for. */
  predicate NthEscape(t: seq<Byte>, k: nat, lo: Byte, hi: Byte) {
    3 * k <= |t| && EscapedByte(t[3 * k..]).Some? && lo <= EscapedByte(t[3 * k..]).value <= hi
  }

  predicate HasArabicLanguageMark(t: seq<Byte>)
    ensures HasArabicLanguageMark(t) ==> |t| >= 6
  {
    NthEscape(t, 0, 0xD8, 0xD8) && NthEscape(t, 1, 0x9C, 0x9C)
  }

  predicate HasThreeByteBidiControlChar(t: seq<Byte>)
    ensures HasThreeByteBidiControlChar(t) ==> |t| >= 9
  {
    && NthEscape(t, 0, 0xE2, 0xE2)
    && if NthEscape(t, 1, 0x80, 0x80) then
         NthEscape(t, 2, 0x8E, 0x8E) || NthEscape(t, 2, 0x8F, 0x8F) || NthEscape(t, 2, 0xAA, 0xAE)
       else NthEscape(t, 1, 0x81, 0x81) && NthEscape(t, 2, 0xA6, 0xA9)
  }

  predicate HasFourByteBannedChar(t: seq<Byte>)
    ensures HasFourByteBannedChar(t) ==> |t| >= 12
  {
    && NthEscape(t, 0, 0xF0, 0xF0) && NthEscape(t, 1, 0x9F, 0x9F) && NthEscape(t, 2, 0x94, 0x94)
    && (NthEscape(t, 3, 0x8F, 0x8F) || NthEscape(t, 3, 0x90, 0x90) || NthEscape(t, 3, 0x92, 0x93))
  }

  /** What one turn of the loop consumes, appends, and records as an adjustment. */
  datatype Turn = Turn(eaten: nat, out: seq<Byte>, adjusted: bool)

  function UnescapeFront(t: seq<Byte>, r: Rules): (n: Turn)
    requires t != []
    ensures 1 <= n.eaten <= |t| && n.out != []
    ensures |n.out| == n.eaten - (if n.adjusted then 2 else 0)
    ensures n.adjusted ==> n.eaten == 3 && EscapedByte(t).Some?
  {
    if t[0] >= 128 then Turn(1, [t[0]], false)
    else if EscapedByte(t).Some? then
      if !r.spoofingAndControl && HasArabicLanguageMark(t) then Turn(6, t[..6], false)
      else if !r.spoofingAndControl && HasThreeByteBidiControlChar(t) then Turn(9, t[..9], false)
      else if !r.spoofingAndControl && HasFourByteBannedChar(t) then Turn(12, t[..12], false)
      else if Allowed(EscapedByte(t).value, r) then Turn(3, [EscapedByte(t).value], true)
      else Turn(1, [PERCENT], false)
    else if r.plusToSpace && t[0] == PLUS then Turn(1, [SPACE], false)
    else Turn(1, [t[0]], false)
  }

  function Unescaped(t: seq<Byte>, r: Rules): seq<Byte>
    decreases |t|
  {
    if t == [] then [] else UnescapeFront(t, r).out + Unescaped(t[UnescapeFront(t, r).eaten..], r)
  }

  /** The offsets of the triplets that were collapsed, given that t starts at offset base. */
  function Adjustments(t: seq<Byte>, r: Rules, base: nat): seq<nat>
    decreases |t|
  {
    if t == [] then []
    else
      var n := UnescapeFront(t, r);
      (if n.adjusted then [base] else []) + Adjustments(t[n.eaten..], r, base + n.eaten)
  }

  function UnescapeURLComponent(t: seq<Byte>, r: Rules): seq<Byte> {
    if r == NONE then t else Unescaped(t, r)
  }

  lemma UnescapedStep(text: seq<Byte>, i: nat, r: Rules, done: seq<Byte>)
    requires i < |text|
    ensures var n := UnescapeFront(text[i..], r);
            done + Unescaped(text[i..], r) == (done + n.out) + Unescaped(text[i + n.eaten..], r)
  {
    hide UnescapeFront;
    var n := UnescapeFront(text[i..], r);
    assert text[i..][n.eaten..] == text[i + n.eaten..];
    Assoc(done, n.out, Unescaped(text[i + n.eaten..], r));
  }

  lemma AdjustmentsStep(text: seq<Byte>, i: nat, r: Rules, done: seq<nat>)
    requires i < |text|
    ensures var n := UnescapeFront(text[i..], r);
            done + Adjustments(text[i..], r, i)
            == (done + if n.adjusted then [i] else []) + Adjustments(text[i + n.eaten..], r, i + n.eaten)
  {
    hide UnescapeFront;
    var n := UnescapeFront(text[i..], r);
    assert text[i..][n.eaten..] == text[i + n.eaten..];
    Assoc(done, if n.adjusted then [i] else [], Adjustments(text[i + n.eaten..], r, i + n.eaten));
  }

  /** The body of the loop: what is appended for the text at i, where to go on, and whether
      a triplet was collapsed. */
  method UnescapeAt(text: seq<Byte>, i: nat, r: Rules) returns (out: seq<Byte>, next: nat, adjusted: bool)
    requires i < |text|
    ensures i < next && Turn(next - i, out, adjusted) == UnescapeFront(text[i..], r)
  {
    hide EscapedByte, Allowed, HasArabicLanguageMark, HasThreeByteBidiControlChar, HasFourByteBannedChar;
    next, adjusted := i + 1, false;
    var first := EscapedByte(text[i..]);
    if text[i] >= 128 {
      out := [text[i]];
    } else if first.Some? {
      if !r.spoofingAndControl && HasArabicLanguageMark(text[i..]) {
        out, next := text[i..][..6], i + 6;
      } else if !r.spoofingAndControl && HasThreeByteBidiControlChar(text[i..]) {
        out, next := text[i..][..9], i + 9;
      } else if !r.spoofingAndControl && HasFourByteBannedChar(text[i..]) {
        out, next := text[i..][..12], i + 12;
      } else if Allowed(first.value, r) {
        out, next, adjusted := [first.value], i + 3, true;
      } else {
        // Keep escaped: the two digits follow in the next turns.
        out := [PERCENT];
      }
    } else if r.plusToSpace && text[i] == PLUS {
      out := [SPACE];
    } else {
      out := [text[i]];
    }
  }

  /** The text up to i has been dealt with. */
  ghost predicate UnescapedTo(text: seq<Byte>, i: nat, r: Rules, result: seq<Byte>, adjustments: seq<nat>) {
    && i <= |text|
    && result + Unescaped(text[i..], r) == Unescaped(text, r)
    && adjustments + Adjustments(text[i..], r, i) == Adjustments(text, r, 0)
  }

  lemma UnescapeStart(text: seq<Byte>, r: Rules)
    ensures UnescapedTo(text, 0, r, [], [])
  {
    assert text[0..] == text;
  }

  lemma UnescapeStep(text: seq<Byte>, i: nat, r: Rules, result: seq<Byte>, adjustments: seq<nat>)
    requires UnescapedTo(text, i, r, result, adjustments) && i < |text|
    ensures var n := UnescapeFront(text[i..], r);
            UnescapedTo(text, i + n.eaten, r, result + n.out, if n.adjusted then adjustments + [i] else adjustments)
  {
    hide UnescapeFront, Unescaped, Adjustments;
    UnescapedStep(text, i, r, result);
    AdjustmentsStep(text, i, r, adjustments);
    assert adjustments + [] == adjustments;
  }

  lemma UnescapeEnd(text: seq<Byte>, r: Rules, result: seq<Byte>, adjustments: seq<nat>)
    requires UnescapedTo(text, |text|, r, result, adjustments)
    ensures result == Unescaped(text, r) && adjustments == Adjustments(text, r, 0)
  {
    assert text[|text|..] == [];
  }

  /** `UnescapeURLWithAdjustmentsImpl`. Each adjustment stands for three bytes become one. */
  method UnescapeURLWithAdjustments(text: seq<Byte>, r: Rules) returns (result: seq<Byte>, adjustments: seq<nat>)
    ensures result == UnescapeURLComponent(text, r)
    ensures adjustments == if r == NONE then [] else Adjustments(text, r, 0)
  {
    hide UnescapeFront, Unescaped, Adjustments, UnescapedTo;
    result, adjustments := [], [];
    if r == NONE {
      return text, [];
    }
    var i := 0;
    UnescapeStart(text, r);
    while i < |text|
      invariant 0 <= i <= |text| && UnescapedTo(text, i, r, result, adjustments)
    {
      UnescapeStep(text, i, r, result, adjustments);
      var out, next, adjusted := UnescapeAt(text, i, r);
      result := result + out;
      if adjusted {
        adjustments := adjustments + [i];
      }
      i := next;
    }
    UnescapeEnd(text, r, result, adjustments);
  }
}
