/** Characters that unescaping leaves escaped: the bidirectional controls of section 4.1 of
    RFC 3987, those added since by Unicode, and four lock symbols (base/escape.cc). */
module EscapeExclusion {
  import opened Basics
  import opened Escapes

  /** w is one of the excluded characters, in UTF-8. */
  predicate Excluded(w: seq<Byte>) {
    || w == [0xD8, 0x9C]
    || (|w| == 3 && w[0] == 0xE2 && w[1] == 0x80 && (w[2] == 0x8E || w[2] == 0x8F || 0xAA <= w[2] <= 0xAE))
    || (|w| == 3 && w[0] == 0xE2 && w[1] == 0x81 && 0xA6 <= w[2] <= 0xA9)
    || (|w| == 4 && w[0] == 0xF0 && w[1] == 0x9F && w[2] == 0x94
        && (w[3] == 0x8F || w[3] == 0x90 || w[3] == 0x92 || w[3] == 0x93))
  }

  /** u has an excluded character at i. */
  ghost predicate BannedAt(u: seq<Byte>, i: nat) {
    i <= |u| && exists w :: Excluded(w) && w <= u[i..]
  }

  // ----- Characters spelled out ---------------------------------------------------------------------

  /** The byte that t starts with, either as it is or as a triplet. */
  function Front(t: seq<Byte>): Option<Byte> {
    if t != [] && t[0] >= 128 then Some(t[0]) else EscapedByte(t)
  }

  function Width(t: seq<Byte>): (n: nat)
    requires Front(t).Some?
    ensures 1 <= n <= |t|
  {
    if t[0] >= 128 then 1 else 3
  }

  /** t starts with the bytes of w, each of them raw or as a triplet. */
  predicate SpelledBy(t: seq<Byte>, w: seq<Byte>)
    decreases |w|
  {
    w == [] || (Front(t) == Some(w[0]) && SpelledBy(t[Width(t)..], w[1..]))
  }

  /** One of the first n bytes spelled by t is raw. */
  predicate RawIn(t: seq<Byte>, n: nat)
    decreases n
  {
    n > 0 && Front(t).Some? && (t[0] >= 128 || RawIn(t[Width(t)..], n - 1))
  }

  /** t starts with an excluded character that is not entirely escaped. */
  ghost predicate PartlyRaw(t: seq<Byte>) {
    exists w :: Excluded(w) && SpelledBy(t, w) && RawIn(t, |w|)
  }

  /** What the loop keeps escaped. */
  predicate Kept(t: seq<Byte>) {
    HasArabicLanguageMark(t) || HasThreeByteBidiControlChar(t) || HasFourByteBannedChar(t)
  }

  predicate Lead(c: Byte) { c == 0xD8 || c == 0xE2 || c == 0xF0 }

  predicate Continues(c: Byte) { 0x80 <= c < 0xC0 }

  lemma ExcludedBytes(w: seq<Byte>)
    requires Excluded(w)
    ensures 2 <= |w| <= 4 && Lead(w[0]) && forall k :: 1 <= k < |w| ==> Continues(w[k])
  {
  }

  lemma KeptStartsWithLead(t: seq<Byte>)
    requires Kept(t)
    ensures EscapedByte(t).Some? && Lead(EscapedByte(t).value) && t[0] == PERCENT
  {
    assert t[0..] == t;
  }

  // ----- One turn of the loop ---------------------------------------------------------------------------

  /** A byte of 128 or more comes through unless a whole excluded character is escaped here. */
  lemma HighFront(t: seq<Byte>, r: Rules)
    requires !r.spoofingAndControl && Front(t).Some? && Front(t).value >= 128 && !Kept(t)
    ensures Unescaped(t, r) == [Front(t).value] + Unescaped(t[Width(t)..], r)
  {
    assert UnescapeFront(t, r).out == [Front(t).value] && UnescapeFront(t, r).eaten == Width(t);
  }

  /** Otherwise what comes out next is ASCII. */
  lemma LowFront(t: seq<Byte>, r: Rules)
    requires !r.spoofingAndControl && (Kept(t) || Front(t).None? || Front(t).value < 128)
    ensures Unescaped(t, r) == [] || Unescaped(t, r)[0] < 128
  {
    if t != [] {
      if Kept(t) { KeptStartsWithLead(t); }
      var n := UnescapeFront(t, r);
      assert n.out[0] < 128;
      assert Unescaped(t, r) == n.out + Unescaped(t[n.eaten..], r);
    }
  }

  /** The output starts with the bytes of w exactly when the input spells them. */
  lemma {:induction false} SpellingComesThrough(t: seq<Byte>, r: Rules, w: seq<Byte>)
    requires !r.spoofingAndControl && w != [] && w[0] >= 128
    requires forall k :: 1 <= k < |w| ==> Continues(w[k])
    ensures w <= Unescaped(t, r) <==> !Kept(t) && SpelledBy(t, w)
    decreases |w|
  {
    hide Unescaped, Kept, EscapedByte;
    if Kept(t) || Front(t).None? || Front(t).value < 128 {
      LowFront(t, r);
    } else {
      HighFront(t, r);
      var t1, w1 := t[Width(t)..], w[1..];
      PrefixCons(w, Front(t).value, Unescaped(t1, r));
      if w1 != [] {
        assert w1[0] == w[1] && Continues(w[1]);
        SpellingComesThrough(t1, r, w1);
        if Kept(t1) { KeptStartsWithLead(t1); }
        assert Front(t1) == Some(w1[0]) ==> !Kept(t1);
      }
    }
  }

  lemma PrefixCons(w: seq<Byte>, c: Byte, u: seq<Byte>)
    requires w != []
    ensures w <= [c] + u <==> w[0] == c && w[1..] <= u
  {
    if w[0] == c && w[1..] <= u {
      assert w == [c] + w[1..];
    }
    if w <= [c] + u {
      assert forall k :: 0 <= k < |w| - 1 ==> w[1..][k] == ([c] + u)[k + 1];
    }
  }

  /** An excluded character is kept exactly when all of it is escaped. */
  lemma KeptIfEscaped(t: seq<Byte>, w: seq<Byte>)
    requires Excluded(w) && SpelledBy(t, w)
    ensures Kept(t) <==> !RawIn(t, |w|)
  {
    if t[0] >= 128 {
      if Kept(t) { KeptStartsWithLead(t); }
    } else {
      var t1 := t[3..];
      assert t[0..] == t && SpelledBy(t1, w[1..]) && w[1..][0] == w[1];
      if t1[0] < 128 && |w| > 2 {
        var t2 := t1[3..];
        assert t2 == t[6..] && SpelledBy(t2, w[2..]) && w[2..][0] == w[2] && w[1..][1..] == w[2..];
        if t2[0] < 128 && |w| > 3 {
          var t3 := t2[3..];
          assert t3 == t[9..] && SpelledBy(t3, w[3..]) && w[3..][0] == w[3] && w[2..][1..] == w[3..];
        }
      }
    }
  }

  lemma FrontExact(t: seq<Byte>, r: Rules)
    requires !r.spoofingAndControl
    ensures BannedAt(Unescaped(t, r), 0) <==> PartlyRaw(t)
  {
    var u := Unescaped(t, r);
    assert u[0..] == u;
    forall w | Excluded(w)
      ensures w <= u <==> SpelledBy(t, w) && RawIn(t, |w|)
    {
      hide Kept, Unescaped, SpelledBy, RawIn;
      ExcludedBytes(w);
      SpellingComesThrough(t, r, w);
      if SpelledBy(t, w) { KeptIfEscaped(t, w); }
    }
  }
  // ----- The whole text ---------------------------------------------------------------------------------

  /** Inside what one turn takes no excluded character can start. */
  lemma NoLeadInside(t: seq<Byte>, r: Rules, j: nat)
    requires t != [] && 0 < j < UnescapeFront(t, r).eaten
    ensures Front(t[j..]).None? || !Lead(Front(t[j..]).value)
  {
    TurnTakesTriplets(t, r);
    hide UnescapeFront, Kept, EscapedByte, Front;
    if j % 3 == 0 {
      InnerTriplet(t, j / 3);
    } else {
      assert t[0..] == t && 3 * (j / 3) == j - j % 3;
      if j > 3 { InnerTriplet(t, j / 3); }
      InsideTriplet(t, 3 * (j / 3), j);
    }
  }

  /** How many triplets are kept at the front of t. */
  function KeptTriplets(t: seq<Byte>): nat {
    if HasArabicLanguageMark(t) then 2 else if HasThreeByteBidiControlChar(t) then 3
    else if HasFourByteBannedChar(t) then 4 else 0
  }

  lemma TurnTakesTriplets(t: seq<Byte>, r: Rules)
    requires t != [] && UnescapeFront(t, r).eaten > 1
    ensures EscapedByte(t).Some? && (UnescapeFront(t, r).eaten == 3 || UnescapeFront(t, r).eaten == 3 * KeptTriplets(t))
  {
  }

  lemma InsideTriplet(t: seq<Byte>, k: nat, j: nat)
    requires k < j < k + 3 && k <= |t| && EscapedByte(t[k..]).Some?
    ensures j < |t| && Front(t[j..]).None?
  {
    assert t[j..][0] == t[j] == t[k..][j - k];
  }

  lemma NthIsEscape(t: seq<Byte>, k: nat)
    requires 3 * k <= |t|
    ensures EscapedByte(t[3 * k..]).Some? ==> Front(t[3 * k..]) == EscapedByte(t[3 * k..])
  {
  }

  lemma InnerTriplet(t: seq<Byte>, k: nat)
    requires 0 < k < KeptTriplets(t)
    ensures EscapedByte(t[3 * k..]).Some? && Front(t[3 * k..]) == EscapedByte(t[3 * k..])
    ensures Continues(EscapedByte(t[3 * k..]).value)
  {
    hide EscapedByte;
    NthIsEscape(t, k);
    assert t[0..] == t;
  }

  /** Where an excluded character comes out, a partly raw one went in. */
  lemma {:induction false} CameFromRaw(t: seq<Byte>, r: Rules, i: nat) returns (j: nat)
    requires !r.spoofingAndControl && BannedAt(Unescaped(t, r), i)
    ensures j <= |t| && PartlyRaw(t[j..])
    decreases |t|
  {
    hide PartlyRaw, BannedAt, UnescapeFront, Unescaped;
    if i == 0 {
      FrontExact(t, r);
      assert t[0..] == t;
      j := 0;
    } else {
      BannedInRest(t, r, i);
      var n := UnescapeFront(t, r);
      j := CameFromRaw(t[n.eaten..], r, i - |n.out|);
      assert t[n.eaten..][j..] == t[n.eaten + j..];
      j := n.eaten + j;
    }
  }

  lemma BannedInRest(t: seq<Byte>, r: Rules, i: nat)
    requires i > 0 && BannedAt(Unescaped(t, r), i)
    ensures t != []
    ensures var n := UnescapeFront(t, r);
            i >= |n.out| && BannedAt(Unescaped(t[n.eaten..], r), i - |n.out|)
  {
    assert t != [];
    hide BannedAt, UnescapeFront;
    var n := UnescapeFront(t, r);
    var x := Unescaped(t[n.eaten..], r);
    assert Unescaped(t, r) == n.out + x;
    StartsAtTurn(t, r, x, i);
    BannedShifts(n.out, x, i);
  }

  /** What a turn appends beyond its first byte is ASCII. */
  lemma StartsAtTurn(t: seq<Byte>, r: Rules, x: seq<Byte>, i: nat)
    requires t != [] && 0 < i && BannedAt(UnescapeFront(t, r).out + x, i)
    ensures i >= |UnescapeFront(t, r).out|
  {
    var n := UnescapeFront(t, r);
    var u := n.out + x;
    var w :| Excluded(w) && w <= u[i..];
    ExcludedBytes(w);
    assert u[i] == u[i..][0] == w[0];
    if i < |n.out| {
      assert u[i] == n.out[i] && n.out == t[..n.eaten];
      NoLeadInside(t, r, i);
      assert t[i..][0] == t[i] && t[i] < 128;
    }
  }

  lemma BannedShifts(a: seq<Byte>, b: seq<Byte>, i: nat)
    requires |a| <= i
    ensures BannedAt(a + b, i) <==> BannedAt(b, i - |a|)
  {
    if i <= |a + b| {
      assert (a + b)[i..] == b[i - |a|..];
    }
  }

  /** A partly raw excluded character comes out, wherever it stands. */
  lemma {:induction false} RawComesThrough(t: seq<Byte>, r: Rules, j: nat) returns (i: nat)
    requires !r.spoofingAndControl && j <= |t| && PartlyRaw(t[j..])
    ensures BannedAt(Unescaped(t, r), i)
    decreases |t|
  {
    if j == 0 {
      assert t[0..] == t;
      FrontExact(t, r);
      i := 0;
    } else {
      var n := UnescapeFront(t, r);
      StartsWithLead(t[j..]);
      hide PartlyRaw, BannedAt, UnescapeFront, Front;
      if j < n.eaten { NoLeadInside(t, r, j); }
      assert t[n.eaten..][j - n.eaten..] == t[j..];
      i := RawComesThrough(t[n.eaten..], r, j - n.eaten);
      var x := Unescaped(t[n.eaten..], r);
      assert Unescaped(t, r) == n.out + x;
      BannedShifts(n.out, x, i + |n.out|);
      i := i + |n.out|;
    }
  }

  lemma StartsWithLead(t: seq<Byte>)
    requires PartlyRaw(t)
    ensures Front(t).Some? && Lead(Front(t).value)
  {
    var w :| Excluded(w) && SpelledBy(t, w) && RawIn(t, |w|);
    ExcludedBytes(w);
  }

  /** Exactly when an excluded character appears in the output: without SPOOFING_AND_CONTROL_CHARS
      unescaping lets one through if and only if the input spells one with at least one of its
      bytes raw. Under NONE the output is the input. */
  lemma ExcludedExactly(t: seq<Byte>, r: Rules)
    requires !r.spoofingAndControl
    ensures r == NONE ==> UnescapeURLComponent(t, r) == t
    ensures r != NONE ==> ((exists i: nat :: BannedAt(UnescapeURLComponent(t, r), i))
                           <==> exists j: nat :: j <= |t| && PartlyRaw(t[j..]))
  {
    hide BannedAt, PartlyRaw, Unescaped;
    if r != NONE {
      var u := UnescapeURLComponent(t, r);
      if exists i: nat :: BannedAt(u, i) {
        var i: nat :| BannedAt(u, i);
        var j := CameFromRaw(t, r, i);
        assert j <= |t| && PartlyRaw(t[j..]);
      }
      if exists j: nat :: j <= |t| && PartlyRaw(t[j..]) {
        var j: nat :| j <= |t| && PartlyRaw(t[j..]);
        var i := RawComesThrough(t, r, j);
        assert BannedAt(u, i);
      }
    }
  }

  ghost predicate Ascii(t: seq<Byte>) { forall i :: 0 <= i < |t| ==> t[i] < 128 }

  lemma {:induction false} AsciiIsNotRaw(t: seq<Byte>, n: nat)
    requires Ascii(t)
    ensures !RawIn(t, n)
    decreases n
  {
    if n > 0 && Front(t).Some? { AsciiIsNotRaw(t[Width(t)..], n - 1); }
  }

  /** So for every ASCII input and every set of rules without the flag nothing excluded appears. */
  lemma UnescapeExcludes(t: seq<Byte>, r: Rules)
    requires Ascii(t) && !r.spoofingAndControl
    ensures forall i: nat :: !BannedAt(UnescapeURLComponent(t, r), i)
  {
    ExcludedExactly(t, r);
    forall i: nat | i <= |t|
      ensures !BannedAt(t, i) && !PartlyRaw(t[i..])
    {
      forall w | Excluded(w)
        ensures !(w <= t[i..]) && !RawIn(t[i..], |w|)
      {
        ExcludedBytes(w);
        AsciiIsNotRaw(t[i..], |w|);
        assert t[i..] != [] ==> t[i..][0] < 128;
      }
    }
  }

  /** A raw lead byte with escaped continuation bytes is decoded to U+200E. */
  lemma MixedSpelling(r: Rules)
    requires !r.spoofingAndControl && r != NONE
    ensures exists i: nat :: BannedAt(UnescapeURLComponent([0xE2] + Triplet(0x80) + Triplet(0x8E), r), i)
  {
    var t, w: seq<Byte> := [0xE2] + Triplet(0x80) + Triplet(0x8E), [0xE2, 0x80, 0x8E];
    var t1, t2 := Triplet(0x80) + Triplet(0x8E), Triplet(0x8E);
    assert t[1..] == t1 && t1[3..] == t2;
    assert w[1..] == [0x80, 0x8E] && [0x80, 0x8E][1..] == [0x8E] && [0x8E][1..] == [];
    assert Front(t2) == Some(0x8E) && SpelledBy(t2, [0x8E]);
    assert EscapedByte(t1) == EscapedByte(Triplet(0x80)) && Front(t1) == Some(0x80) && SpelledBy(t1, [0x80, 0x8E]);
    assert Front(t) == Some(0xE2) && SpelledBy(t, w) && RawIn(t, 3);
    assert t[0..] == t && PartlyRaw(t[0..]);
    hide PartlyRaw, BannedAt;
    ExcludedExactly(t, r);
  }

  // ----- Adjustments --------------------------------------------------------------------------------

  /** The output is shorter by two bytes for every adjustment. */
  lemma {:induction false} AdjustmentsCount(t: seq<Byte>, r: Rules, base: nat)
    ensures |Unescaped(t, r)| == |t| - 2 * |Adjustments(t, r, base)|
    decreases |t|
  {
    hide UnescapeFront;
    if t != [] {
      var n := UnescapeFront(t, r);
      AdjustmentsCount(t[n.eaten..], r, base + n.eaten);
    }
  }

  /** Each offset in a, counted from base, is the start of a triplet of t. */
  ghost predicate Marks(a: seq<nat>, t: seq<Byte>, base: nat) {
    forall i :: 0 <= i < |a| ==> base <= a[i] <= base + |t| && EscapedByte(t[a[i] - base..]).Some?
  }

  lemma MarksShift(a: seq<nat>, t: seq<Byte>, base: nat, k: nat)
    requires k <= |t| && Marks(a, t[k..], base + k)
    ensures Marks(a, t, base)
  {
    forall i | 0 <= i < |a|
      ensures base <= a[i] <= base + |t| && EscapedByte(t[a[i] - base..]).Some?
    {
      assert t[k..][a[i] - base - k..] == t[a[i] - base..];
    }
  }

  /** Offsets at least three apart, starting from at least base. */
  ghost predicate Spaced(a: seq<nat>, base: nat) {
    && (forall i :: 0 <= i < |a| ==> base <= a[i])
    && (forall i, j :: 0 <= i < j < |a| ==> a[i] + 3 <= a[j])
  }

  lemma SpacedCons(a: seq<nat>, base: nat)
    requires Spaced(a, base + 3)
    ensures Spaced([base] + a, base)
  {
  }

  lemma SpacedFrom(a: seq<nat>, base: nat, k: nat)
    requires Spaced(a, base + k)
    ensures Spaced(a, base)
  {
  }

  lemma MarksCons(a: seq<nat>, t: seq<Byte>, base: nat)
    requires Marks(a, t, base) && EscapedByte(t).Some?
    ensures Marks([base] + a, t, base)
  {
    hide EscapedByte;
    assert t[0..] == t;
  }

  lemma AdjustmentsUnfold(t: seq<Byte>, r: Rules, base: nat)
    requires t != []
    ensures var n := UnescapeFront(t, r);
            var rest := Adjustments(t[n.eaten..], r, base + n.eaten);
            Adjustments(t, r, base) == if n.adjusted then [base] + rest else rest
  {
    hide UnescapeFront;
    var n := UnescapeFront(t, r);
    assert [] + Adjustments(t[n.eaten..], r, base + n.eaten) == Adjustments(t[n.eaten..], r, base + n.eaten);
  }

  /** Every adjustment marks a triplet of the input, and they are three or more apart. */
  lemma {:induction false} AdjustmentsMark(t: seq<Byte>, r: Rules, base: nat)
    ensures Marks(Adjustments(t, r, base), t, base) && Spaced(Adjustments(t, r, base), base)
    decreases |t|
  {
    hide UnescapeFront, EscapedByte, Marks, Spaced, Adjustments;
    if t == [] {
      NoAdjustments(t, r, base);
    } else {
      AdjustmentsUnfold(t, r, base);
      var n := UnescapeFront(t, r);
      var rest := Adjustments(t[n.eaten..], r, base + n.eaten);
      AdjustmentsMark(t[n.eaten..], r, base + n.eaten);
      MarksShift(rest, t, base, n.eaten);
      if n.adjusted {
        SpacedCons(rest, base);
        MarksCons(rest, t, base);
      } else {
        SpacedFrom(rest, base, n.eaten);
      }
    }
  }

  lemma NoAdjustments(t: seq<Byte>, r: Rules, base: nat)
    requires t == []
    ensures Marks(Adjustments(t, r, base), t, base) && Spaced(Adjustments(t, r, base), base)
  {
  }

  // ----- Characters the rules protect ---------------------------------------------------------------

  /** c may neither appear nor disappear: the rules do not unescape it, and it is not part of
      the escapes themselves or of the plus replacement. */
  predicate Protected(c: Byte, r: Rules) {
    !Allowed(c, r) && c != PERCENT && !(r.plusToSpace && (c == PLUS || c == SPACE))
  }

  /** The protected characters of t, in order. */
  function ProtectedIn(t: seq<Byte>, r: Rules): seq<Byte> {
    if t == [] then [] else (if Protected(t[0], r) then [t[0]] else []) + ProtectedIn(t[1..], r)
  }

  lemma {:induction false} ProtectedConcat(a: seq<Byte>, b: seq<Byte>, r: Rules)
    ensures ProtectedIn(a + b, r) == ProtectedIn(a, r) + ProtectedIn(b, r)
  {
    hide Protected;
    if a == [] {
      assert a + b == b;
    } else {
      assert (a + b)[0] == a[0] && (a + b)[1..] == a[1..] + b;
      ProtectedConcat(a[1..], b, r);
    }
  }

  /** Each turn of the loop passes the protected characters on. */
  lemma FrontKeepsProtected(t: seq<Byte>, r: Rules)
    requires t != []
    ensures ProtectedIn(UnescapeFront(t, r).out, r) == ProtectedIn(t[..UnescapeFront(t, r).eaten], r)
  {
    var n := UnescapeFront(t, r);
    if n.adjusted {
      TripletUnprotected(t, r);
      hide Protected;
      assert n.out == [EscapedByte(t).value] && n.out[1..] == [];
    } else if |n.out| > 1 {
      assert n.out == t[..n.eaten];
    } else {
      hide ProtectedIn;
      OneProtected(n.out[0], r);
      OneProtected(t[0], r);
      assert t[..1] == [t[0]] && n.out == [n.out[0]];
    }
  }

  lemma OneProtected(c: Byte, r: Rules)
    ensures ProtectedIn([c], r) == if Protected(c, r) then [c] else []
  {
    hide Protected;
    assert [c][1..] == [];
  }

  lemma TripletUnprotected(t: seq<Byte>, r: Rules)
    requires EscapedByte(t).Some?
    ensures ProtectedIn(t[..3], r) == []
  {
    assert !Protected(t[0], r) && !Protected(t[1], r) && !Protected(t[2], r);
    hide Protected, ProtectedIn, EscapedByte;
    OneProtected(t[0], r);
    OneProtected(t[1], r);
    OneProtected(t[2], r);
    ProtectedConcat([t[0]], [t[1]], r);
    ProtectedConcat([t[0]] + [t[1]], [t[2]], r);
    assert t[..3] == [t[0]] + [t[1]] + [t[2]];
  }

  /** On every byte string and for all rules, unescaping keeps every protected character, adds
      none, and keeps their order: the structure a reader relies on stays what it was. */
  lemma {:induction false} ProtectedKept(t: seq<Byte>, r: Rules)
    ensures ProtectedIn(UnescapeURLComponent(t, r), r) == ProtectedIn(t, r)
    decreases |t|
  {
    if r != NONE && t != [] {
      hide Protected, ProtectedIn, UnescapeFront;
      var n := UnescapeFront(t, r);
      FrontKeepsProtected(t, r);
      ProtectedKept(t[n.eaten..], r);
      ProtectedConcat(n.out, Unescaped(t[n.eaten..], r), r);
      ProtectedConcat(t[..n.eaten], t[n.eaten..], r);
      assert t[..n.eaten] + t[n.eaten..] == t;
    }
  }

  /** Not part of an escape or of the plus replacement, and not a path separator. */
  predicate Ordinary(c: Byte, r: Rules) {
    c != PERCENT && c != SLASH && c != BACKSLASH && !(r.plusToSpace && c == PLUS)
  }

  /** How often c occurs. */
  function Count(t: seq<Byte>, c: Byte): nat {
    if t == [] then 0 else (if t[0] == c then 1 else 0) + Count(t[1..], c)
  }

  lemma {:induction false} CountProtected(t: seq<Byte>, r: Rules, c: Byte)
    requires Protected(c, r)
    ensures Count(ProtectedIn(t, r), c) == Count(t, c)
  {
    hide Protected;
    if t != [] {
      var rest := ProtectedIn(t[1..], r);
      CountProtected(t[1..], r, c);
      assert ([t[0]] + rest)[1..] == rest && [] + rest == rest;
    }
  }

  lemma OccurrencesKept(t: seq<Byte>, r: Rules, c: Byte)
    requires Protected(c, r)
    ensures Count(UnescapeURLComponent(t, r), c) == Count(t, c)
  {
    hide Protected, ProtectedIn, Count;
    ProtectedKept(t, r);
    CountProtected(t, r, c);
    CountProtected(UnescapeURLComponent(t, r), r, c);
  }

  /** What leaving out a flag guarantees, on every byte string: path separators, spaces, control
      characters, and the other ASCII characters that are not unescaped as normal, except '%',
      occur as often in the output as in the input. */
  lemma StructureKept(t: seq<Byte>, r: Rules, c: Byte)
    requires || (!r.pathSeparators && (c == SLASH || c == BACKSLASH))
             || (!r.spaces && !r.plusToSpace && c == SPACE)
             || (!r.spoofingAndControl && c < SPACE)
             || (!r.specials && SPACE < c < 0x80 && !UrlUnescape(c) && Ordinary(c, r))
    ensures Count(UnescapeURLComponent(t, r), c) == Count(t, c)
  {
    OccurrencesKept(t, r, c);
  }
}
