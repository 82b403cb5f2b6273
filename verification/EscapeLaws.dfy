/** What escaping and unescaping promise together (base/escape.cc, base/escape.h). */
module EscapeLaws {
  import opened Basics
  import opened Escapes
  import opened EscapeTables

  // ----- Round trips --------------------------------------------------------------------------------

  /** Every flag that lets more be unescaped is set. */
  predicate Permissive(r: Rules) { r.spaces && r.pathSeparators && r.specials && r.spoofingAndControl }

  lemma UnescapeTriplet(t: seq<Byte>, x: seq<Byte>, c: Byte, r: Rules)
    requires Permissive(r) && |t| == 3 && EscapedByte(t) == Some(c)
    ensures Unescaped(t + x, r) == [c] + Unescaped(x, r)
  {
    var u := t + x;
    assert u[0] == t[0] && u[1] == t[1] && u[2] == t[2] && u[3..] == x;
    assert UnescapeFront(u, r) == Turn(3, [c], true);
  }

  lemma UnescapePlain(c: Byte, x: seq<Byte>, r: Rules)
    requires c != PERCENT && !(r.plusToSpace && c == PLUS)
    ensures Unescaped([c] + x, r) == [c] + Unescaped(x, r)
  {
    assert ([c] + x)[1..] == x;
  }

  lemma UnescapePlus(x: seq<Byte>, r: Rules)
    requires r.plusToSpace
    ensures Unescaped([PLUS] + x, r) == [SPACE] + Unescaped(x, r)
  {
    assert ([PLUS] + x)[1..] == x;
  }

  /** Unescaping undoes escaping for every table that escapes '%', and '+' if '+' is to be
      read as a space. */
  lemma {:induction false} RoundTrip(t: seq<Byte>, m: Charmap, usePlus: bool, r: Rules)
    requires m.Valid() && m.Contains(PERCENT) && Permissive(r)
    requires usePlus ==> r.plusToSpace
    requires r.plusToSpace ==> m.Contains(PLUS)
    ensures Unescaped(Escaped(t, m, usePlus, false), r) == t
    decreases |t|
  {
    hide UnescapeFront, EscapedByte, Charmap.Contains;
    if t != [] {
      var x := Escaped(t[1..], m, usePlus, false);
      RoundTrip(t[1..], m, usePlus, r);
      hide Unescaped;
      if usePlus && t[0] == SPACE {
        UnescapePlus(x, r);
      } else if m.Contains(t[0]) {
        UnescapeTriplet(Triplet(t[0]), x, t[0], r);
      } else {
        UnescapePlain(t[0], x, r);
      }
      assert t == [t[0]] + t[1..];
    }
  }

  /** For every byte string: the permissive rules with plus replacement undo the two form
      escapes, and without it undo the path escape. */
  lemma EscapesAreUndone(t: seq<Byte>, usePlus: bool, r: Rules)
    requires Permissive(r)
    ensures r.plusToSpace ==> UnescapeURLComponent(EscapeQueryParamValue(t, usePlus), r) == t
    ensures r.plusToSpace ==> UnescapeURLComponent(EscapeUrlEncodedData(t, usePlus), r) == t
    ensures !r.plusToSpace ==> UnescapeURLComponent(EscapePath(t), r) == t
  {
    hide Charmap.Contains, Escaped, Unescaped;
    if r.plusToSpace {
      QueryTable(PERCENT);
      QueryTable(PLUS);
      UrlEscapeTable(PERCENT);
      UrlEscapeTable(PLUS);
      RoundTrip(t, QUERY, usePlus, r);
      RoundTrip(t, URL_ESCAPE, usePlus, r);
    } else {
      PathTable(PERCENT);
      RoundTrip(t, PATH, false, r);
    }
  }

  // ----- Escaping that keeps escapes --------------------------------------------------------------------

  /** '%' is escaped and hexadecimal digits are not. */
  ghost predicate Keeping(m: Charmap) {
    m.Valid() && m.Contains(PERCENT) && forall c: Byte :: IsHexDigit(c) ==> !m.Contains(c)
  }

  lemma ExternalHandlerKeeps()
    ensures Keeping(EXTERNAL_HANDLER)
  {
    hide Charmap.Contains;
    ExternalHandlerTable(PERCENT);
    forall c: Byte | IsHexDigit(c)
      ensures !EXTERNAL_HANDLER.Contains(c)
    {
      ExternalHandlerTable(c);
    }
  }

  /** One byte that is copied, and one '%' that is kept. */
  lemma EscapedCopies(t: seq<Byte>, m: Charmap)
    requires t != [] && m.Valid() && (EscapedByte(t).Some? || !m.Contains(t[0]))
    ensures Escaped(t, m, false, true) == [t[0]] + Escaped(t[1..], m, false, true)
  {
  }

  lemma {:induction false} EscapedKept(t: seq<Byte>, m: Charmap)
    requires Keeping(m) && EscapedByte(t).Some?
    ensures Escaped(t, m, false, true) == t[..3] + Escaped(t[3..], m, false, true)
  {
    hide Escaped, Charmap.Contains;
    var x := Escaped(t[3..], m, false, true);
    EscapedCopies(t, m);
    assert t[1..][0] == t[1] && t[1..][1..] == t[2..];
    EscapedCopies(t[1..], m);
    assert t[2..][0] == t[2] && t[2..][1..] == t[3..];
    EscapedCopies(t[2..], m);
    assert [t[0]] + ([t[1]] + ([t[2]] + x)) == t[..3] + x;
  }

  /** Nothing is left that another pass would change. */
  ghost predicate Clean(u: seq<Byte>, m: Charmap)
    requires m.Valid()
    decreases |u|
  {
    u == [] ||
    if u[0] == PERCENT then EscapedByte(u).Some? && Clean(u[3..], m) else !m.Contains(u[0]) && Clean(u[1..], m)
  }

  lemma {:induction false} EscapedIsClean(t: seq<Byte>, m: Charmap)
    requires Keeping(m)
    ensures Clean(Escaped(t, m, false, true), m)
    decreases |t|
  {
    if t != [] {
      var u := Escaped(t, m, false, true);
      if EscapedByte(t).Some? {
        EscapedKept(t, m);
        EscapedIsClean(t[3..], m);
        var x := Escaped(t[3..], m, false, true);
        assert u[0] == t[0] && u[1] == t[1] && u[2] == t[2] && u[3..] == x;
      } else {
        EscapedIsClean(t[1..], m);
        var x := Escaped(t[1..], m, false, true);
        if m.Contains(t[0]) {
          var p := Triplet(t[0]);
          assert u == p + x && u[0] == p[0] && u[1] == p[1] && u[2] == p[2] && u[3..] == x;
        } else {
          assert u == [t[0]] + x && u[1..] == x;
        }
      }
    }
  }

  lemma {:induction false} CleanIsFixed(u: seq<Byte>, m: Charmap)
    requires Keeping(m) && Clean(u, m)
    ensures Escaped(u, m, false, true) == u
    decreases |u|
  {
    if u != [] {
      if u[0] == PERCENT {
        CleanIsFixed(u[3..], m);
        EscapedKept(u, m);
      } else {
        CleanIsFixed(u[1..], m);
        assert u == [u[0]] + u[1..];
      }
    }
  }

  /** `EscapeExternalHandlerValue` is idempotent on every byte string. */
  lemma ExternalHandlerIdempotent(t: seq<Byte>)
    ensures EscapeExternalHandlerValue(EscapeExternalHandlerValue(t)) == EscapeExternalHandlerValue(t)
  {
    ExternalHandlerKeeps();
    EscapedIsClean(t, EXTERNAL_HANDLER);
    CleanIsFixed(EscapeExternalHandlerValue(t), EXTERNAL_HANDLER);
  }

  /** Keeping escapes keeps the meaning: fully unescaped, the text and its escaped form agree. */
  lemma {:induction false} KeepsMeaning(t: seq<Byte>, m: Charmap, r: Rules)
    requires Keeping(m) && Permissive(r) && !r.plusToSpace
    ensures Unescaped(Escaped(t, m, false, true), r) == Unescaped(t, r)
    decreases |t|
  {
    hide Escaped, Unescaped, Charmap.Contains;
    if t == [] {
      NothingEscaped(t, m, r);
    } else if EscapedByte(t).Some? {
      var x, c := Escaped(t[3..], m, false, true), EscapedByte(t).value;
      KeepsMeaning(t[3..], m, r);
      EscapedKept(t, m);
      assert EscapedByte(t[..3]) == EscapedByte(t) && t == t[..3] + t[3..];
      UnescapeTriplet(t[..3], t[3..], c, r);
      UnescapeTriplet(t[..3], x, c, r);
    } else {
      KeepsMeaning(t[1..], m, r);
      MeaningOfOne(t, m, r);
    }
  }

  lemma NothingEscaped(t: seq<Byte>, m: Charmap, r: Rules)
    requires m.Valid() && t == []
    ensures Escaped(t, m, false, true) == t
  {
  }

  /** A byte that starts no escape means itself, escaped or not. */
  lemma MeaningOfOne(t: seq<Byte>, m: Charmap, r: Rules)
    requires Keeping(m) && Permissive(r) && !r.plusToSpace && t != [] && EscapedByte(t).None?
    ensures Unescaped(t, r) == [t[0]] + Unescaped(t[1..], r)
    ensures Unescaped(Escaped(t, m, false, true), r) == [t[0]] + Unescaped(Escaped(t[1..], m, false, true), r)
  {
    hide Charmap.Contains;
    var x := Escaped(t[1..], m, false, true);
    if m.Contains(t[0]) {
      UnescapeTriplet(Triplet(t[0]), x, t[0], r);
    } else {
      UnescapePlain(t[0], x, r);
    }
  }

  lemma ExternalHandlerKeepsMeaning(t: seq<Byte>, r: Rules)
    requires Permissive(r) && !r.plusToSpace
    ensures UnescapeURLComponent(EscapeExternalHandlerValue(t), r) == UnescapeURLComponent(t, r)
  {
    ExternalHandlerKeeps();
    KeepsMeaning(t, EXTERNAL_HANDLER, r);
  }
}
