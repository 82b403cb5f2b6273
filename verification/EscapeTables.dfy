/** The four tables of base/escape.cc against the lists in the comments beside them, for all
    256 bytes. */
module EscapeTables {
  import opened Basics
  import opened Powers
  import opened Escapes

  // ----- The comments -------------------------------------------------------------------------------

  predicate Alphanumeric(c: int) { 0x30 <= c <= 0x39 || 0x41 <= c <= 0x5A || 0x61 <= c <= 0x7A }

  /** Non-printable, not 7-bit, or a space. */
  predicate Unprintable(c: int) { c <= 0x20 || c >= 0x7F }

  /** !'()*-._~ */
  predicate Mark(c: int) { c == 0x21 || 0x27 <= c <= 0x2A || c == 0x2D || c == 0x2E || c == 0x5F || c == 0x7E }

  /** ;/?:@&=+$, */
  predicate Reserved(c: int) {
    c == 0x24 || c == 0x26 || c == 0x2B || c == 0x2C || c == 0x2F || c == 0x3A || c == 0x3B || c == 0x3D
    || c == 0x3F || c == 0x40
  }

  /** [\]^`{|} */
  predicate Bracket(c: int) { 0x5B <= c <= 0x5E || c == 0x60 || 0x7B <= c <= 0x7D }

  datatype Table = Query | Path | UrlEncoded | ExternalHandler

  /** What the comment beside each table lists. */
  predicate Listed(t: Table, c: int) {
    match t
    // Everything except alphanumerics and the marks.
    case Query => !Alphanumeric(c) && !Mark(c)
    // Unprintable, brackets, and "#%:<>?
    case Path =>
      Unprintable(c) || Bracket(c) || c == 0x22 || c == 0x23 || c == 0x25 || c == 0x3A || c == 0x3C || c == 0x3E
      || c == 0x3F
    // Unprintable, brackets, and ?>=<;+'&%$#"!
    case UrlEncoded => Unprintable(c) || Bracket(c) || 0x3B <= c <= 0x3F || c == 0x2B || 0x21 <= c <= 0x27
    // Everything except alphanumerics, the reserved characters, the marks and #[]
    case ExternalHandler =>
      !Alphanumeric(c) && !Reserved(c) && !Mark(c) && c != 0x23 && c != 0x5B && c != 0x5D
  }

  // ----- Reading a word -------------------------------------------------------------------------------

  predicate Bit(w: nat, k: nat) { (w / Pow2(k)) % 2 == 1 }

  /** A word by its hexadecimal digits, from the lowest. */
  datatype Hex = End | Digit(d: nat, rest: Hex)

  function FromHex(h: Hex): nat {
    match h
    case End => 0
    case Digit(d, rest) => d + 16 * FromHex(rest)
  }

  predicate DigitBit(d: nat, k: nat) {
    if k == 0 then d % 2 == 1
    else if k == 1 then (d / 2) % 2 == 1
    else if k == 2 then (d / 4) % 2 == 1
    else (d / 8) % 2 == 1
  }

  predicate InHex(h: Hex, k: nat)
    decreases h
  {
    match h
    case End => false
    case Digit(d, rest) => if k < 4 then DigitBit(d, k) else InHex(rest, k - 4)
  }

  predicate ValidHex(h: Hex) {
    h.End? || (h.d < 16 && ValidHex(h.rest))
  }

  lemma NoBit(k: nat)
    ensures !Bit(0, k)
  {
    DivModUnique(0, Pow2(k), 0, 0);
  }

  lemma {:induction false} HexBits(h: Hex, k: nat)
    requires ValidHex(h)
    ensures Bit(FromHex(h), k) <==> InHex(h, k)
    decreases h
  {
    hide Bit, Pow2, DigitBit;
    match h
    case End => NoBit(k);
    case Digit(d, rest) =>
      if k < 4 {
        LowDigit(d, FromHex(rest), k);
      } else {
        HighDigits(d, FromHex(rest), k);
        HexBits(rest, k - 4);
      }
  }

  lemma BitIs(w: nat, k: nat, p: nat)
    requires p == Pow2(k)
    ensures Bit(w, k) <==> (w / p) % 2 == 1
  {
  }

  lemma LowDigit(d: nat, v: nat, k: nat)
    requires d < 16 && k < 4
    ensures Bit(d + 16 * v, k) <==> DigitBit(d, k)
  {
    assert Pow2(0) == 1 && Pow2(1) == 2 && Pow2(2) == 4 && Pow2(3) == 8;
    hide Pow2, Bit;
    BitIs(d + 16 * v, k, if k == 0 then 1 else if k == 1 then 2 else if k == 2 then 4 else 8);
    if k == 1 {
      DivModUnique(d + 16 * v, 2, 8 * v + d / 2, d % 2);
      SameParity(4 * v, d / 2);
    } else if k == 2 {
      DivModUnique(d + 16 * v, 4, 4 * v + d / 4, d % 4);
      SameParity(2 * v, d / 4);
    } else if k == 3 {
      DivModUnique(d + 16 * v, 8, 2 * v + d / 8, d % 8);
      SameParity(v, d / 8);
    } else {
      SameParity(8 * v, d);
    }
  }

  lemma SameParity(a: nat, b: nat)
    ensures (2 * a + b) % 2 == b % 2
  {
  }

  lemma HighDigits(d: nat, v: nat, k: nat)
    requires d < 16 && k >= 4
    ensures Bit(d + 16 * v, k) <==> Bit(v, k - 4)
  {
    assert Pow2(4) == 16;
    Pow2Add(4, k - 4);
    DivDiv(d + 16 * v, 16, Pow2(k - 4));
    DivModUnique(d + 16 * v, 16, v, d);
  }

  // ----- The words of the tables ----------------------------------------------------------------------

  lemma FullWord(k: nat)
    requires k < 32
    ensures Bit(0xffff_ffff, k)
  {
    hide Bit;
    HexBits(Digit(15, Digit(15, Digit(15, Digit(15, Digit(15, Digit(15, Digit(15, Digit(15, End)))))))), k);
  }

  lemma WordFC00987D(k: nat)
    ensures Bit(0xfc00_987d, k) <==> k == 0 || 2 <= k <= 6 || 11 <= k <= 12 || k == 15 || 26 <= k <= 31
  {
    hide Bit;
    HexBits(Digit(13, Digit(7, Digit(8, Digit(9, Digit(0, Digit(0, Digit(12, Digit(15, End)))))))), k);
  }

  lemma WordD400002D(k: nat)
    ensures Bit(0xd400_002d, k) <==> k == 0 || 2 <= k <= 3 || k == 5 || k == 26 || k == 28 || 30 <= k <= 31
  {
    hide Bit;
    HexBits(Digit(13, Digit(2, Digit(0, Digit(0, Digit(0, Digit(0, Digit(4, Digit(13, End)))))))), k);
  }

  lemma WordF80008FD(k: nat)
    ensures Bit(0xf800_08fd, k) <==> k == 0 || 2 <= k <= 7 || k == 11 || 27 <= k <= 31
  {
    hide Bit;
    HexBits(Digit(13, Digit(15, Digit(8, Digit(0, Digit(0, Digit(0, Digit(8, Digit(15, End)))))))), k);
  }

  lemma Word50000025(k: nat)
    ensures Bit(0x5000_0025, k) <==> k == 0 || k == 2 || k == 5 || k == 28 || k == 30
  {
    hide Bit;
    HexBits(Digit(5, Digit(2, Digit(0, Digit(0, Digit(0, Digit(0, Digit(0, Digit(5, End)))))))), k);
  }

  lemma Word78000001(k: nat)
    ensures Bit(0x7800_0001, k) <==> k == 0 || 27 <= k <= 30
  {
    hide Bit;
    HexBits(Digit(1, Digit(0, Digit(0, Digit(0, Digit(0, Digit(0, Digit(8, Digit(7, End)))))))), k);
  }

  lemma Word78000000(k: nat)
    ensures Bit(0x7800_0000, k) <==> 27 <= k <= 30
  {
    hide Bit;
    HexBits(Digit(0, Digit(0, Digit(0, Digit(0, Digit(0, Digit(0, Digit(8, Digit(7, End)))))))), k);
  }

  lemma Word50000000(k: nat)
    ensures Bit(0x5000_0000, k) <==> k == 28 || k == 30
  {
    hide Bit;
    HexBits(Digit(0, Digit(0, Digit(0, Digit(0, Digit(0, Digit(0, Digit(0, Digit(5, End)))))))), k);
  }

  lemma WordB8000001(k: nat)
    ensures Bit(0xb800_0001, k) <==> k == 0 || 27 <= k <= 29 || k == 31
  {
    hide Bit;
    HexBits(Digit(1, Digit(0, Digit(0, Digit(0, Digit(0, Digit(0, Digit(8, Digit(11, End)))))))), k);
  }

  /** The tables differ only in the words for 0x20 to 0x5F. */
  lemma TableContains(m: Charmap, c: Byte)
    requires |m.words| == 8 && m.words[0] == 0xffff_ffff && m.words[3] == 0xb800_0001
    requires forall i :: 4 <= i < 8 ==> m.words[i] == 0xffff_ffff
    ensures m.Contains(c) <==>
              if c < 0x20 || c >= 0x80 then true
              else if c < 0x40 then Bit(m.words[1], c - 0x20)
              else if c < 0x60 then Bit(m.words[2], c - 0x40)
              else c == 0x60 || 0x7B <= c <= 0x7D || c == 0x7F
  {
    assert m.Contains(c) <==> Bit(m.words[c / 32], c % 32);
    hide Bit, Pow2, Charmap.Contains;
    if c < 0x20 || c >= 0x80 {
      FullWord(c % 32);
    } else if c >= 0x60 {
      WordB8000001(c - 0x60);
    }
  }

  // ----- Tables and comments ----------------------------------------------------------------------------

  // Three of the tables hold exactly what the comments beside them list.

  lemma QueryTable(c: Byte)
    ensures QUERY.Contains(c) <==> Listed(Query, c)
  {
    hide Bit, Charmap.Contains, Charmap.Valid;
    TableContains(QUERY, c);
    if 0x20 <= c < 0x40 {
      WordFC00987D(c - 0x20);
    } else if 0x40 <= c < 0x60 {
      Word78000001(c - 0x40);
    }
  }

  lemma PathTable(c: Byte)
    ensures PATH.Contains(c) <==> Listed(Path, c)
  {
    hide Bit, Charmap.Contains, Charmap.Valid;
    TableContains(PATH, c);
    if 0x20 <= c < 0x40 {
      WordD400002D(c - 0x20);
    } else if 0x40 <= c < 0x60 {
      Word78000000(c - 0x40);
    }
  }

  lemma ExternalHandlerTable(c: Byte)
    ensures EXTERNAL_HANDLER.Contains(c) <==> Listed(ExternalHandler, c)
  {
    hide Bit, Charmap.Contains, Charmap.Valid;
    TableContains(EXTERNAL_HANDLER, c);
    if 0x20 <= c < 0x40 {
      Word50000025(c - 0x20);
    } else if 0x40 <= c < 0x60 {
      Word50000000(c - 0x40);
    }
  }

  /** The table of `EscapeUrlEncodedData` agrees with its comment on every byte but two: it
      leaves '!' alone, which is listed, and escapes '@', which is not. */
  lemma UrlEscapeTable(c: Byte)
    ensures (URL_ESCAPE.Contains(c) <==> Listed(UrlEncoded, c)) <==> c != 0x21 && c != 0x40
    ensures !URL_ESCAPE.Contains(0x21) && URL_ESCAPE.Contains(0x40)
  {
    UrlEscapeBytes(c);
    UrlEscapeBytes(0x21);
    UrlEscapeBytes(0x40);
    hide Charmap.Contains;
  }

  lemma UrlEscapeBytes(c: Byte)
    ensures URL_ESCAPE.Contains(c) <==> if c == 0x21 then false else c == 0x40 || Listed(UrlEncoded, c)
  {
    hide Bit, Charmap.Contains, Charmap.Valid;
    TableContains(URL_ESCAPE, c);
    if 0x20 <= c < 0x40 {
      WordF80008FD(c - 0x20);
    } else if 0x40 <= c < 0x60 {
      Word78000001(c - 0x40);
    }
  }
}
