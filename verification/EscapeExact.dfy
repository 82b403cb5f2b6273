/** What escaping and unescaping do to each byte, in terms of characters and positions. */
module EscapeExact {
  import opened Basics
  import opened Escapes
  import opened EscapeTables
  import opened EscapeExclusion

  // ----- Hexadecimal digits -----------------------------------------------------------------------

  /** 0123456789ABCDEF */
  const UPPER: seq<Byte> := [0x30, 0x31, 0x32, 0x33, 0x34, 0x35, 0x36, 0x37, 0x38, 0x39,
                             0x41, 0x42, 0x43, 0x44, 0x45, 0x46]

  /** 0123456789abcdef */
  const LOWER: seq<Byte> := [0x30, 0x31, 0x32, 0x33, 0x34, 0x35, 0x36, 0x37, 0x38, 0x39,
                             0x61, 0x62, 0x63, 0x64, 0x65, 0x66]

  lemma DigitLists(k: nat)
    requires k < 16
    ensures UPPER[k] == (if k < 10 then 0x30 + k else 0x37 + k) && LOWER[k] == if k < 10 then 0x30 + k else 0x57 + k
  {
  }

  /** The digit at position k of either list has value k and no other character has; what is
      written is upper case. */
  lemma DigitValues(k: nat, c: Byte)
    requires k < 16
    ensures IsHexDigit(c) && HexDigitToInt(c) == k <==> c == UPPER[k] || c == LOWER[k]
    ensures IntToHex(k) == UPPER[k]
  {
    DigitLists(k);
  }

  /** A triplet stands for 16 * hi + lo exactly if its digits are at those positions, in either
      case. */
  lemma TripletValues(t: seq<Byte>, hi: nat, lo: nat)
    requires hi < 16 && lo < 16
    ensures EscapedByte(t) == Some(16 * hi + lo)
            <==> |t| > 2 && t[0] == 0x25 && (t[1] == UPPER[hi] || t[1] == LOWER[hi])
                 && (t[2] == UPPER[lo] || t[2] == LOWER[lo])
  {
    if |t| > 2 {
      DigitValues(hi, t[1]);
      DigitValues(lo, t[2]);
    }
  }

  // ----- Escaping, byte by byte -------------------------------------------------------------------------

  /** The first byte of t has to be written as a triplet: it is in the table, and neither a space
      that becomes a plus nor the start of an escape that is kept. */
  predicate Must(t: seq<Byte>, m: Charmap, usePlus: bool, keep: bool)
    requires t != [] && m.Valid()
  {
    && m.Contains(t[0]) && !(usePlus && t[0] == 0x20)
    && !(keep && |t| > 2 && t[0] == 0x25 && IsHexDigit(t[1]) && IsHexDigit(t[2]))
  }

  /** Where in the output byte i comes to stand: three places for each byte before it that must
      be escaped, one for each other. */
  function Offset(t: seq<Byte>, m: Charmap, usePlus: bool, keep: bool, i: nat): (o: nat)
    requires m.Valid() && i <= |t|
    ensures o >= i
  {
    if i == 0 then 0
    else (if Must(t, m, usePlus, keep) then 3 else 1) + Offset(t[1..], m, usePlus, keep, i - 1)
  }

  /** The text that out has at o is what byte c becomes. */
  predicate Becomes(out: seq<Byte>, o: nat, c: Byte, must: bool, usePlus: bool) {
    if must then o + 2 < |out| && out[o] == 0x25 && out[o + 1] == UPPER[c / 16] && out[o + 2] == UPPER[c % 16]
    else o < |out| && out[o] == if usePlus && c == 0x20 then 0x2B else c
  }

  /** For every table and all flags: at its offset, byte i has become its triplet, a plus for a
      space, or is unchanged. */
  lemma {:induction false} EscapeExactly(t: seq<Byte>, m: Charmap, usePlus: bool, keep: bool, i: nat)
    requires m.Valid() && i < |t|
    ensures Becomes(Escaped(t, m, usePlus, keep), Offset(t, m, usePlus, keep, i), t[i],
                    Must(t[i..], m, usePlus, keep), usePlus)
    decreases |t|
  {
    hide Charmap.Contains, Must, Becomes, EscapeFront;
    var rest := Escaped(t[1..], m, usePlus, keep);
    FrontBecomes(t, m, usePlus, keep, rest);
    if i == 0 {
      assert t[0..] == t;
    } else {
      EscapeExactly(t[1..], m, usePlus, keep, i - 1);
      assert t[1..][i - 1..] == t[i..];
      BecomesLater(EscapeFront(t, m, usePlus, keep), rest, Offset(t[1..], m, usePlus, keep, i - 1), t[i],
                   Must(t[i..], m, usePlus, keep), usePlus);
    }
  }

  /** And nothing else is in the output. */
  lemma {:induction false} EscapedLength(t: seq<Byte>, m: Charmap, usePlus: bool, keep: bool)
    requires m.Valid()
    ensures |Escaped(t, m, usePlus, keep)| == Offset(t, m, usePlus, keep, |t|)
    decreases |t|
  {
    hide Charmap.Contains, Must, EscapeFront;
    if t != [] {
      FrontBecomes(t, m, usePlus, keep, []);
      EscapedLength(t[1..], m, usePlus, keep);
    }
  }

  lemma FrontBecomes(t: seq<Byte>, m: Charmap, usePlus: bool, keep: bool, rest: seq<Byte>)
    requires m.Valid() && t != []
    ensures var front := EscapeFront(t, m, usePlus, keep);
            && |front| == (if Must(t, m, usePlus, keep) then 3 else 1)
            && Becomes(front + rest, 0, t[0], Must(t, m, usePlus, keep), usePlus)
  {
    DigitValues(t[0] / 16, IntToHex(t[0] / 16));
    DigitValues(t[0] % 16, IntToHex(t[0] % 16));
    hide Charmap.Contains;
  }

  lemma BecomesLater(front: seq<Byte>, rest: seq<Byte>, o: nat, c: Byte, must: bool, usePlus: bool)
    requires Becomes(rest, o, c, must, usePlus)
    ensures Becomes(front + rest, |front| + o, c, must, usePlus)
  {
  }

  /** So of a table without hexadecimal digits nothing is left in the output but the '%' of
      triplets, and a plus put for a space. */
  lemma {:induction false} TableBytesEscaped(t: seq<Byte>, m: Charmap, usePlus: bool, keep: bool, p: nat)
    requires m.Valid() && (forall c: Byte :: IsHexDigit(c) ==> !m.Contains(c)) && p < |Escaped(t, m, usePlus, keep)|
    ensures var out := Escaped(t, m, usePlus, keep);
            m.Contains(out[p]) ==> EscapedByte(out[p..]).Some? || (usePlus && out[p] == 0x2B)
    decreases |t|
  {
    var out, rest := Escaped(t, m, usePlus, keep), Escaped(t[1..], m, usePlus, keep);
    var front := EscapeFront(t, m, usePlus, keep);
    assert out == front + rest;
    if p >= |front| {
      TableBytesEscaped(t[1..], m, usePlus, keep, p - |front|);
      assert out[p] == rest[p - |front|] && out[p..] == rest[p - |front|..];
    } else {
      FrontEscaped(t, m, usePlus, keep, p);
    }
  }

  lemma FrontEscaped(t: seq<Byte>, m: Charmap, usePlus: bool, keep: bool, p: nat)
    requires m.Valid() && (forall c: Byte :: IsHexDigit(c) ==> !m.Contains(c)) && t != []
    requires p < |EscapeFront(t, m, usePlus, keep)|
    ensures var out := Escaped(t, m, usePlus, keep);
            && p < |out|
            && (m.Contains(out[p]) ==> EscapedByte(out[p..]).Some? || (usePlus && out[p] == 0x2B))
  {
    hide Charmap.Contains, Escaped;
    var out := Escaped(t, m, usePlus, keep);
    EscapeExactly(t, m, usePlus, keep, 0);
    FrontBecomes(t, m, usePlus, keep, []);
    assert t[0..] == t && out[0..] == out;
    if Must(t, m, usePlus, keep) {
      DigitValues(t[0] / 16, out[1]);
      DigitValues(t[0] % 16, out[2]);
    } else if keep && EscapedByte(t).Some? {
      CopiedAt(t, m, usePlus, keep, 1);
      CopiedAt(t, m, usePlus, keep, 2);
    }
  }

  /** The digits of an escape that is kept are copied. */
  lemma CopiedAt(t: seq<Byte>, m: Charmap, usePlus: bool, keep: bool, i: nat)
    requires m.Valid() && (forall c: Byte :: IsHexDigit(c) ==> !m.Contains(c))
    requires keep && EscapedByte(t).Some? && 1 <= i <= 2
    ensures var out := Escaped(t, m, usePlus, keep); i < |out| && out[i] == t[i]
  {
    hide Charmap.Contains, Escaped;
    assert t[1..][1..] == t[2..] && !Must(t, m, usePlus, keep);
    assert t[1..][0] == t[1] && !Must(t[1..], m, usePlus, keep);
    assert t[2..][0] == t[2] && !Must(t[2..], m, usePlus, keep);
    hide Must;
    assert Offset(t[1..], m, usePlus, keep, i - 1) == i - 1;
    assert Offset(t, m, usePlus, keep, i) == i;
    EscapeExactly(t, m, usePlus, keep, i);
  }

  /** The public functions: whatever the comment of the table lists does not stand as it is in
      the output, except '%' in triplets and the plus of a space. */
  lemma PublicEscapesClean(t: seq<Byte>, usePlus: bool, p: nat)
    ensures var q := EscapeQueryParamValue(t, usePlus);
            p < |q| && Listed(Query, q[p]) ==> EscapedByte(q[p..]).Some? || (usePlus && q[p] == 0x2B)
    ensures var q := EscapePath(t); p < |q| && Listed(Path, q[p]) ==> EscapedByte(q[p..]).Some?
    ensures var q := EscapeUrlEncodedData(t, usePlus);
            p < |q| && Listed(UrlEncoded, q[p]) && q[p] != 0x21 ==> EscapedByte(q[p..]).Some? || (usePlus && q[p] == 0x2B)
  {
    hide Charmap.Contains, Escaped, EscapedByte, Listed;
    NoHexDigits();
    var a, b, c := EscapeQueryParamValue(t, usePlus), EscapePath(t), EscapeUrlEncodedData(t, usePlus);
    if p < |a| {
      TableBytesEscaped(t, QUERY, usePlus, false, p);
      QueryTable(a[p]);
    }
    if p < |b| {
      TableBytesEscaped(t, PATH, false, false, p);
      PathTable(b[p]);
    }
    if p < |c| {
      TableBytesEscaped(t, URL_ESCAPE, usePlus, false, p);
      UrlEscapeBytes(c[p]);
    }
  }

  /** What becomes of a byte that is or is not among those to be escaped. */
  function Written(c: Byte, listed: bool, usePlus: bool): seq<Byte> {
    if usePlus && c == 0x20 then [0x2B] else if listed then [0x25, UPPER[c / 16], UPPER[c % 16]] else [c]
  }

  /** The public functions, byte by byte, in terms of the lists in the comments. '!' and '@' are
      the two bytes where the table of `EscapeUrlEncodedData` is not what its comment says. */
  lemma PublicEscapes(c: Byte, x: seq<Byte>, usePlus: bool)
    ensures EscapeQueryParamValue([c] + x, usePlus)
            == Written(c, Listed(Query, c), usePlus) + EscapeQueryParamValue(x, usePlus)
    ensures EscapePath([c] + x) == Written(c, Listed(Path, c), false) + EscapePath(x)
    ensures EscapeUrlEncodedData([c] + x, usePlus)
            == Written(c, c != 0x21 && (c == 0x40 || Listed(UrlEncoded, c)), usePlus) + EscapeUrlEncodedData(x, usePlus)
  {
    hide Charmap.Contains, Listed;
    assert ([c] + x)[1..] == x;
    DigitValues(c / 16, c);
    DigitValues(c % 16, c);
    QueryTable(c);
    PathTable(c);
    UrlEscapeBytes(c);
  }

  lemma NoHexDigits()
    ensures forall c: Byte :: IsHexDigit(c) ==> !QUERY.Contains(c) && !PATH.Contains(c) && !URL_ESCAPE.Contains(c)
  {
    hide Charmap.Contains;
    forall c: Byte | IsHexDigit(c)
      ensures !QUERY.Contains(c) && !PATH.Contains(c) && !URL_ESCAPE.Contains(c)
    {
      QueryTable(c);
      PathTable(c);
      UrlEscapeBytes(c);
    }
  }

  // ----- Unescaping, byte by byte ------------------------------------------------------------------------

  /** The ASCII characters a triplet may stand for: always letters, digits and "-<>_~ (with the
      quotation mark); the space, the path separators, the control characters and all others each
      with their flag. */
  predicate Decoded(c: Byte, r: Rules) {
    || Alphanumeric(c) || c == 0x22 || c == 0x2D || c == 0x3C || c == 0x3E || c == 0x5F || c == 0x7E
    || (if c < 0x20 then r.spoofingAndControl
        else if c == 0x20 then r.spaces
        else if c == 0x2F || c == 0x5C then r.pathSeparators
        else r.specials)
  }

  /** t starts with the triplets of the bytes of w. */
  predicate AllEscaped(t: seq<Byte>, w: seq<Byte>) {
    3 * |w| <= |t| && forall k :: 0 <= k < |w| ==> EscapedByte(t[3 * k..]) == Some(w[k])
  }

  /** Unless spoofing is allowed, the triplets of an excluded character are kept as they are. */
  lemma ExcludedIsCopied(t: seq<Byte>, w: seq<Byte>, r: Rules)
    requires !r.spoofingAndControl && Excluded(w) && AllEscaped(t, w)
    ensures Unescaped(t, r) == t[..3 * |w|] + Unescaped(t[3 * |w|..], r)
  {
    ExcludedBytes(w);
    ExcludedIsKept(t, w);
    hide HasArabicLanguageMark, HasThreeByteBidiControlChar, HasFourByteBannedChar, EscapedByte, Excluded, AllEscaped;
    assert UnescapeFront(t, r) == Turn(3 * |w|, t[..3 * |w|], false);
  }

  lemma ExcludedIsKept(t: seq<Byte>, w: seq<Byte>)
    requires Excluded(w) && AllEscaped(t, w)
    ensures EscapedByte(t).Some? && t[0] == 0x25
    ensures HasArabicLanguageMark(t) <==> |w| == 2
    ensures HasThreeByteBidiControlChar(t) <==> |w| == 3
    ensures HasFourByteBannedChar(t) <==> |w| == 4
  {
    hide EscapedByte;
    assert t[3 * 0..] == t;
    assert EscapedByte(t[3 * 1..]) == Some(w[1]);
    assert |w| > 2 ==> EscapedByte(t[3 * 2..]) == Some(w[2]);
    assert |w| > 3 ==> EscapedByte(t[3 * 3..]) == Some(w[3]);
    StartsEscaped(t);
  }

  lemma StartsEscaped(t: seq<Byte>)
    requires EscapedByte(t).Some?
    ensures t[0] == 0x25
  {
  }

  /** Everything else: a triplet gives its byte if that is not ASCII or may be decoded, and
      otherwise its '%'; another byte is copied, or is a plus read as a space. */
  lemma NextExactly(t: seq<Byte>, r: Rules)
    requires t != [] && (r.spoofingAndControl || forall w :: Excluded(w) ==> !AllEscaped(t, w))
    ensures Unescaped(t, r)
            == match EscapedByte(t)
               case Some(c) =>
                 if c >= 128 || Decoded(c, r) then [c] + Unescaped(t[3..], r) else [0x25] + Unescaped(t[1..], r)
               case None => [if r.plusToSpace && t[0] == 0x2B then 0x20 else t[0]] + Unescaped(t[1..], r)
  {
    if Kept(t) && !r.spoofingAndControl {
      var w := KeptIsExcluded(t);
      assert false;
    }
    assert EscapedByte(t).Some? ==> (Allowed(EscapedByte(t).value, r) <==> EscapedByte(t).value >= 128 || Decoded(EscapedByte(t).value, r));
    hide HasArabicLanguageMark, HasThreeByteBidiControlChar, HasFourByteBannedChar, Decoded, Allowed, Excluded, AllEscaped;
  }

  lemma KeptIsExcluded(t: seq<Byte>) returns (w: seq<Byte>)
    requires Kept(t)
    ensures Excluded(w) && AllEscaped(t, w)
  {
    hide EscapedByte;
    w := [EscapedByte(t[3 * 0..]).value, EscapedByte(t[3 * 1..]).value];
    if !HasArabicLanguageMark(t) {
      w := w + [EscapedByte(t[3 * 2..]).value];
      if !HasThreeByteBidiControlChar(t) {
        w := w + [EscapedByte(t[3 * 3..]).value];
      }
    }
  }

  /** The lower-case letters among the hexadecimal digits, as upper case. */
  function Fold(t: seq<Byte>): (u: seq<Byte>)
    ensures |u| == |t| && forall i :: 0 <= i < |t| ==> u[i] == FoldByte(t[i])
  {
    seq(|t|, i requires 0 <= i < |t| => FoldByte(t[i]))
  }

  function FoldByte(c: Byte): Byte { if 0x61 <= c <= 0x66 then c - 0x20 else c }

  lemma FoldedEscape(t: seq<Byte>)
    ensures EscapedByte(Fold(t)) == EscapedByte(t)
  {
  }

  lemma FoldDrop(t: seq<Byte>, k: nat)
    requires k <= |t|
    ensures Fold(t)[k..] == Fold(t[k..]) && Fold(t)[..k] == Fold(t[..k])
  {
  }

  lemma FoldedNth(t: seq<Byte>, k: nat, lo: Byte, hi: Byte)
    ensures NthEscape(Fold(t), k, lo, hi) == NthEscape(t, k, lo, hi)
  {
    hide EscapedByte;
    if 3 * k <= |t| {
      FoldDrop(t, 3 * k);
      FoldedEscape(t[3 * k..]);
    }
  }

  lemma FoldedKept(t: seq<Byte>)
    ensures HasArabicLanguageMark(Fold(t)) == HasArabicLanguageMark(t)
    ensures HasThreeByteBidiControlChar(Fold(t)) == HasThreeByteBidiControlChar(t)
    ensures HasFourByteBannedChar(Fold(t)) == HasFourByteBannedChar(t)
  {
    hide NthEscape, Fold;
    forall k: nat, lo: Byte, hi: Byte
      ensures NthEscape(Fold(t), k, lo, hi) == NthEscape(t, k, lo, hi)
    {
      FoldedNth(t, k, lo, hi);
    }
  }

  lemma FoldedFront(t: seq<Byte>, r: Rules)
    requires t != []
    ensures var n, f := UnescapeFront(t, r), UnescapeFront(Fold(t), r);
            f.eaten == n.eaten && f.adjusted == n.adjusted && Fold(f.out) == Fold(n.out)
  {
    FoldedEscape(t);
    FoldedKept(t);
    hide HasArabicLanguageMark, HasThreeByteBidiControlChar, HasFourByteBannedChar, EscapedByte;
    var n, f := UnescapeFront(t, r), UnescapeFront(Fold(t), r);
    if |n.out| > 1 {
      FoldDrop(t, n.eaten);
      FoldTwice(n.out);
    } else {
      assert f.out[0] == n.out[0] || f.out[0] == FoldByte(n.out[0]);
      FoldOne(f.out[0], n.out[0]);
      assert f.out == [f.out[0]] && n.out == [n.out[0]];
    }
  }

  lemma FoldTwice(t: seq<Byte>)
    ensures Fold(Fold(t)) == Fold(t)
  {
  }

  lemma FoldOne(a: Byte, b: Byte)
    requires a == b || a == FoldByte(b)
    ensures Fold([a]) == Fold([b])
  {
  }

  lemma FoldConcat(a: seq<Byte>, b: seq<Byte>)
    ensures Fold(a + b) == Fold(a) + Fold(b)
  {
  }

  /** Unescaping does not depend on the case of hexadecimal digits: the same triplets are
      replaced, by the same bytes. */
  lemma {:induction false} CaseOfDigits(t: seq<Byte>, r: Rules, base: nat)
    ensures Fold(Unescaped(Fold(t), r)) == Fold(Unescaped(t, r))
    ensures Adjustments(Fold(t), r, base) == Adjustments(t, r, base)
    decreases |t|
  {
    hide UnescapeFront;
    if t == [] {
      assert Fold(t) == t;
    } else {
      var n, f := UnescapeFront(t, r), UnescapeFront(Fold(t), r);
      var x := t[n.eaten..];
      FoldedFront(t, r);
      FoldDrop(t, n.eaten);
      CaseOfDigits(x, r, base + n.eaten);
      FoldConcat(n.out, Unescaped(x, r));
      FoldConcat(f.out, Unescaped(Fold(x), r));
      hide Fold;
    }
  }

  /** Place a of the input, behind k adjustments, is place a - 2 * k of the output. */
  predicate Lands(t: seq<Byte>, u: seq<Byte>, a: int, k: nat) {
    2 * k <= a <= |t| && a - 2 * k < |u| && EscapedByte(t[a..]) == Some(u[a - 2 * k])
  }

  /** Adjustment k, at offset a of the input, is where the output has the byte that the triplet
      there stands for: two places earlier for each adjustment before it. */
  lemma {:induction false} AdjustmentsLand(t: seq<Byte>, r: Rules, base: nat, k: nat)
    requires k < |Adjustments(t, r, base)|
    ensures Lands(t, Unescaped(t, r), Adjustments(t, r, base)[k] - base, k)
    decreases |t|
  {
    hide EscapedByte, UnescapeFront, Lands;
    var n := UnescapeFront(t, r);
    var x := t[n.eaten..];
    FrontLands(t, r, Unescaped(x, r));
    if n.adjusted && k == 0 {
      assert Adjustments(t, r, base)[0] == base;
    } else {
      var j := if n.adjusted then k - 1 else k;
      assert Adjustments(t, r, base)[k] == Adjustments(x, r, base + n.eaten)[j];
      AdjustmentsLand(x, r, base + n.eaten, j);
      LandsLater(t, n, Unescaped(x, r), Adjustments(t, r, base)[k] - base - n.eaten, j);
    }
  }

  lemma FrontLands(t: seq<Byte>, r: Rules, rest: seq<Byte>)
    requires t != []
    ensures var n := UnescapeFront(t, r);
            && (n.adjusted ==> n.eaten == 3 && |n.out| == 1 && Lands(t, n.out + rest, 0, 0))
            && (!n.adjusted ==> |n.out| == n.eaten)
  {
    hide HasArabicLanguageMark, HasThreeByteBidiControlChar, HasFourByteBannedChar, EscapedByte;
    assert t[0..] == t;
  }

  lemma LandsLater(t: seq<Byte>, n: Turn, rest: seq<Byte>, a: int, j: nat)
    requires n.eaten <= |t| && |n.out| == n.eaten - (if n.adjusted then 2 else 0) && Lands(t[n.eaten..], rest, a, j)
    ensures Lands(t, n.out + rest, a + n.eaten, if n.adjusted then j + 1 else j)
  {
    hide EscapedByte;
    assert t[n.eaten..][a..] == t[a + n.eaten..];
  }
}
