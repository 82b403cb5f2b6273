/** What one step of the two-cursor sweeps of `Difference` and `Intersection`, and of the
    coalescing pass `Compact`, does to the points of a run. Here s is the set being
    edited, y the set it is swept against, m and t the cursors into them. */
module IntervalSweeps {
  import opened Intervals
  import opened IntervalRuns

  ghost predicate Clear(i: Interval, y: seq<Interval>) {
    forall j :: 0 <= j < |y| ==> !i.Intersects(y[j])
  }

  /** Everything before cursor t ends before anything from cursor m on begins. */
  ghost predicate Behind(y: seq<Interval>, t: nat, s: seq<Interval>, m: nat)
    requires t <= |y| && m <= |s|
  {
    forall j, i :: 0 <= j < t && m <= i < |s| ==> y[j].max <= s[i].min
  }

  function Replace(s: seq<Interval>, m: nat, pieces: seq<Interval>): seq<Interval>
    requires m < |s|
  {
    s[..m] + pieces + s[m + 1..]
  }

  lemma ClearPoints(i: Interval, y: seq<Interval>, p: int)
    requires Clear(i, y) && i.Contains(p)
    ensures !Covers(y, p)
  {
    if Covers(y, p) {
      var j :| 0 <= j < |y| && y[j].Contains(p);
      assert i.Intersects(y[j]);
    }
  }

  /** An interval that ends before the cursor of y begins can meet nothing in y. */
  lemma SkipMine(s: seq<Interval>, y: seq<Interval>, m: nat, t: nat)
    requires Canonical(s) && Canonical(y) && m < |s| && t < |y|
    requires Behind(y, t, s, m) && s[m].max <= y[t].min
    ensures Clear(s[m], y)
  {
  }

  lemma ReplaceCanonical(s: seq<Interval>, m: nat, pieces: seq<Interval>)
    requires Canonical(s) && m < |s| && Canonical(pieces)
    requires forall k :: 0 <= k < |pieces| ==> s[m].min <= pieces[k].min && pieces[k].max <= s[m].max
    ensures Canonical(Replace(s, m, pieces))
  {
    var r := Replace(s, m, pieces);
    var n := |pieces|;
    forall i, j | 0 <= i < j < |r|
      ensures r[i].max < r[j].min
    {
      if i < m && m <= j < m + n {
        assert s[i].max < s[m].min <= pieces[j - m].min;
      } else if m <= i < m + n && m + n <= j {
        assert pieces[i - m].max <= s[m].max < s[j - n + 1].min;
      }
    }
  }

  lemma ReplacePoints(s: seq<Interval>, m: nat, pieces: seq<Interval>, p: int)
    requires m < |s|
    ensures Covers(s, p) <==> Covers(s[..m], p) || s[m].Contains(p) || Covers(s[m + 1..], p)
    ensures Covers(Replace(s, m, pieces), p)
            <==> Covers(s[..m], p) || Covers(pieces, p) || Covers(s[m + 1..], p)
  {
    assert s == s[..m] + [s[m]] + s[m + 1..];
    CoversConcat3(s[..m], [s[m]], s[m + 1..], p);
    CoversOne(s[m], p);
    CoversConcat3(s[..m], pieces, s[m + 1..], p);
  }

  // ----- Difference ------------------------------------------------------------

  /** Everything left of m is final; nothing wanted has been lost. */
  ghost predicate DifferenceInv(orig: seq<Interval>, y: seq<Interval>, s: seq<Interval>, m: nat, t: nat) {
    && Canonical(s) && Canonical(y) && m <= |s| && t <= |y|
    && Behind(y, t, s, m)
    && (forall i :: 0 <= i < m ==> Clear(s[i], y))
    && (forall p :: Covers(s, p) ==> Covers(orig, p))
    && (forall p :: Covers(orig, p) && !Covers(y, p) ==> Covers(s, p))
  }

  function Pieces(lo: Interval, hi: Interval): seq<Interval> {
    (if lo.Empty() then [] else [lo]) + (if hi.Empty() then [] else [hi])
  }

  lemma PiecesPoints(lo: Interval, hi: Interval, p: int)
    ensures Covers(Pieces(lo, hi), p) <==> lo.Contains(p) || hi.Contains(p)
  {
    CoversConcat(if lo.Empty() then [] else [lo], if hi.Empty() then [] else [hi], p);
    CoversOne(lo, p);
    CoversOne(hi, p);
  }

  lemma DifferenceStep(orig: seq<Interval>, y: seq<Interval>, s: seq<Interval>, m: nat, t: nat,
                       lo: Interval, hi: Interval)
    requires DifferenceInv(orig, y, s, m, t)
    requires m < |s| && t < |y| && s[m].Intersects(y[t])
    requires forall p :: lo.Contains(p) || hi.Contains(p) <==> s[m].Contains(p) && !y[t].Contains(p)
    requires !lo.Empty() ==> lo == Interval(s[m].min, y[t].min)
    requires !hi.Empty() ==> hi == Interval(y[t].max, s[m].max)
    ensures DifferenceInv(orig, y, Replace(s, m, Pieces(lo, hi)), m + (if lo.Empty() then 0 else 1), t)
  {
    var pieces := Pieces(lo, hi);
    var r := Replace(s, m, pieces);
    var m' := m + (if lo.Empty() then 0 else 1);
    ReplaceCanonical(s, m, pieces);
    assert Behind(y, t, r, m');
    forall i | 0 <= i < m'
      ensures Clear(r[i], y)
    {
      if i == m {
        LowPieceClear(s, y, m, t, lo);
      }
    }
    forall p
      ensures Covers(r, p) ==> Covers(orig, p)
      ensures Covers(orig, p) && !Covers(y, p) ==> Covers(r, p)
    {
      ReplacePoints(s, m, pieces, p);
      PiecesPoints(lo, hi, p);
      if y[t].Contains(p) { assert Covers(y, p); }
    }
  }

  /** The sweep's termination measure: positions left, and whether the cursors overlap. */
  ghost function Remaining(s: seq<Interval>, y: seq<Interval>, m: nat, t: nat): nat
    requires m <= |s| && t <= |y|
  {
    2 * (|s| - m + |y| - t) + if m < |s| && t < |y| && s[m].Intersects(y[t]) then 1 else 0
  }

  lemma LowPieceClear(s: seq<Interval>, y: seq<Interval>, m: nat, t: nat, lo: Interval)
    requires Canonical(s) && Canonical(y) && m < |s| && t < |y|
    requires Behind(y, t, s, m) && lo == Interval(s[m].min, y[t].min)
    ensures Clear(lo, y)
  {
  }

  /** When every remaining interval is clear the sweep has computed the difference. */
  lemma DifferenceDone(orig: seq<Interval>, y: seq<Interval>, s: seq<Interval>, m: nat, t: nat)
    requires DifferenceInv(orig, y, s, m, t)
    requires forall i :: m <= i < |s| ==> Clear(s[i], y)
    ensures forall p :: Covers(s, p) <==> Covers(orig, p) && !Covers(y, p)
  {
    forall p | Covers(s, p)
      ensures !Covers(y, p)
    {
      var i :| 0 <= i < |s| && s[i].Contains(p);
      ClearPoints(s[i], y, p);
    }
  }

  // ----- Intersection ----------------------------------------------------------

  /** Everything left of m is common to both sets; nothing common has been lost. */
  ghost predicate IntersectionInv(orig: seq<Interval>, y: seq<Interval>, s: seq<Interval>, m: nat, t: nat) {
    && Canonical(s) && Canonical(y) && m <= |s| && t < |y|
    && Behind(y, t, s, m)
    && (forall p :: Covers(s, p) ==> Covers(orig, p))
    && (forall p :: Covers(orig, p) && Covers(y, p) ==> Covers(s, p))
    && (forall p :: Covers(s[..m], p) ==> Covers(y, p))
  }

  lemma EraseClear(orig: seq<Interval>, y: seq<Interval>, s: seq<Interval>, m: nat, t: nat,
                   s': seq<Interval>, t': nat, k: nat)
    requires IntersectionInv(orig, y, s, m, t)
    requires m + k <= |s| && t <= t' < |y|
    requires forall i :: m <= i < m + k ==> Clear(s[i], y)
    requires s' == s[..m] + s[m + k..] && Canonical(s')
    requires Behind(y, t', s', m)
    ensures IntersectionInv(orig, y, s', m, t')
  {
    assert s'[..m] == s[..m];
    hide Canonical, Behind;
    forall p
      ensures Covers(s', p) ==> Covers(s, p)
      ensures Covers(s, p) && Covers(y, p) ==> Covers(s', p)
    {
      ErasePoints(s, y, m, k, p);
    }
  }

  lemma ErasePoints(s: seq<Interval>, y: seq<Interval>, m: nat, k: nat, p: int)
    requires m + k <= |s|
    requires forall i :: m <= i < m + k ==> Clear(s[i], y)
    ensures Covers(s[..m] + s[m + k..], p) ==> Covers(s, p)
    ensures Covers(s, p) && Covers(y, p) ==> Covers(s[..m] + s[m + k..], p)
  {
    assert s == s[..m] + s[m..m + k] + s[m + k..];
    CoversConcat3(s[..m], s[m..m + k], s[m + k..], p);
    CoversConcat(s[..m], s[m + k..], p);
    if Covers(s[m..m + k], p) {
      var i :| 0 <= i < |s[m..m + k]| && s[m..m + k][i].Contains(p);
      ClearPoints(s[m + i], y, p);
    }
  }

  /** acc is the interval i cut down to each of y[a..b], in order. */
  ghost predicate Cuts(acc: seq<Interval>, i: Interval, y: seq<Interval>, a: nat, b: nat) {
    && a <= b <= |y| && |acc| == b - a
    && (forall j :: a <= j < b ==> i.Intersects(y[j]))
    && (forall k :: 0 <= k < |acc| ==> acc[k] == i.Overlap(y[a + k]))
  }

  lemma CutsCanonical(acc: seq<Interval>, i: Interval, y: seq<Interval>, a: nat, b: nat)
    requires Canonical(y) && Cuts(acc, i, y, a, b)
    ensures Canonical(acc)
    ensures forall k :: 0 <= k < |acc| ==> i.min <= acc[k].min && acc[k].max <= i.max
  {
    forall k, l | 0 <= k < l < |acc|
      ensures acc[k].max < acc[l].min
    {
      assert y[a + k].max < y[a + l].min;
    }
  }

  lemma CutsPoints(acc: seq<Interval>, i: Interval, y: seq<Interval>, a: nat, b: nat, p: int)
    requires Canonical(y) && Cuts(acc, i, y, a, b) && a < b
    requires forall j :: 0 <= j < a ==> y[j].max <= i.min
    requires b < |y| ==> !i.Intersects(y[b])
    ensures Covers(acc, p) <==> i.Contains(p) && Covers(y, p)
  {
    if k :| 0 <= k < |acc| && acc[k].Contains(p) {
      assert y[a + k].Contains(p);
    }
    if i.Contains(p) && Covers(y, p) {
      var j :| 0 <= j < |y| && y[j].Contains(p);
      assert i.Intersects(y[j]);
      assert i.Intersects(y[a]);
      assert a <= j < b;
      assert acc[j - a].Contains(p);
    }
  }

  /** Replacing s[m] by its cuts and moving past them keeps the sweep on course. */
  lemma IntersectionStep(orig: seq<Interval>, y: seq<Interval>, s: seq<Interval>, m: nat, t: nat,
                         acc: seq<Interval>, b: nat)
    requires IntersectionInv(orig, y, s, m, t) && m < |s|
    requires Cuts(acc, s[m], y, t, b) && t < b
    requires b < |y| ==> !s[m].Intersects(y[b])
    ensures IntersectionInv(orig, y, Replace(s, m, acc), m + |acc|, b - 1)
  {
    var r := Replace(s, m, acc);
    CutsCanonical(acc, s[m], y, t, b);
    ReplaceCanonical(s, m, acc);
    assert r[..m + |acc|] == s[..m] + acc;
    forall p
      ensures Covers(r, p) ==> Covers(s, p)
      ensures Covers(s, p) && Covers(y, p) ==> Covers(r, p)
      ensures Covers(r[..m + |acc|], p) ==> Covers(y, p)
    {
      ReplacePoints(s, m, acc, p);
      CutsPoints(acc, s[m], y, t, b, p);
      CoversConcat(s[..m], acc, p);
    }
    assert s[m].Intersects(y[b - 1]);
    forall j, i | 0 <= j < b - 1 && m + |acc| <= i < |r|
      ensures y[j].max <= r[i].min
    {
      assert y[j].max < y[b - 1].min < s[m].max < s[i - |acc| + 1].min;
    }
  }

  // ----- Compact ---------------------------------------------------------------

  function Union2(a: Interval, b: Interval): Interval {
    Interval(a.min, if a.max >= b.max then a.max else b.max)
  }

  /** acc is the coalesced form of s0[b..j]. */
  ghost predicate Coalesced(acc: seq<Interval>, s0: seq<Interval>, b: nat, j: nat) {
    && b < j <= |s0| && acc != [] && Canonical(acc)
    && (forall p :: Covers(acc, p) <==> Covers(s0[b..j], p))
    && acc[0].min == s0[b].min
    && (exists r :: b <= r < j && s0[r].max == acc[|acc| - 1].max)
  }

  lemma CoalescePoints(acc: seq<Interval>, s0: seq<Interval>, b: nat, j: nat, p: int)
    requires b < j < |s0| && acc != []
    requires Covers(acc, p) <==> Covers(s0[b..j], p)
    ensures Covers(acc + [s0[j]], p) <==> Covers(s0[b..j + 1], p)
    ensures var last := acc[|acc| - 1];
            last.min <= s0[j].min <= last.max && !last.Empty() ==>
            (Covers(acc[..|acc| - 1] + [Union2(last, s0[j])], p) <==> Covers(s0[b..j + 1], p))
  {
    var n := |acc| - 1;
    assert s0[b..j + 1] == s0[b..j] + [s0[j]];
    CoversConcat(s0[b..j], [s0[j]], p);
    CoversConcat(acc, [s0[j]], p);
    CoversConcat(acc[..n], [Union2(acc[n], s0[j])], p);
    CoversSplit(acc, n, p);
    assert acc[n..] == [acc[n]];
    CoversOne(s0[j], p);
    CoversOne(acc[n], p);
    CoversOne(Union2(acc[n], s0[j]), p);
  }

  /** The branch of the coalescing loop that keeps two neighbours apart. */
  lemma CoalesceKeep(acc: seq<Interval>, s0: seq<Interval>, b: nat, j: nat)
    requires Coalesced(acc, s0, b, j) && j < |s0| && s0[j].min < s0[j].max
    requires acc[|acc| - 1].max < s0[j].min
    ensures Coalesced(acc + [s0[j]], s0, b, j + 1)
  {
    forall p
      ensures Covers(acc + [s0[j]], p) <==> Covers(s0[b..j + 1], p)
    {
      CoalescePoints(acc, s0, b, j, p);
    }
    assert s0[j].max == (acc + [s0[j]])[|acc|].max;
  }

  /** The branch that merges them. */
  lemma CoalesceMerge(acc: seq<Interval>, s0: seq<Interval>, b: nat, j: nat)
    requires Coalesced(acc, s0, b, j) && j < |s0|
    requires acc[|acc| - 1].min <= s0[j].min <= acc[|acc| - 1].max
    ensures Coalesced(acc[..|acc| - 1] + [Union2(acc[|acc| - 1], s0[j])], s0, b, j + 1)
  {
    var last := acc[|acc| - 1];
    var acc' := acc[..|acc| - 1] + [Union2(last, s0[j])];
    forall p
      ensures Covers(acc', p) <==> Covers(s0[b..j + 1], p)
    {
      CoalescePoints(acc, s0, b, j, p);
    }
    var r :| b <= r < j && s0[r].max == last.max;
    assert s0[if last.max >= s0[j].max then r else j].max == acc'[|acc'| - 1].max;
  }

  /** s with x spliced in at pos. */
  ghost predicate Spliced(s: seq<Interval>, x: Interval, pos: nat, s1: seq<Interval>) {
    pos <= |s| && s1 == s[..pos] + [x] + s[pos..]
  }

  /** The window `Add` hands to `Compact` is wide enough: coalescing it alone makes the
      whole set canonical again. s is the set before the insertion, x the new interval. */
  lemma AddWindow(s: seq<Interval>, x: Interval, pos: nat, s1: seq<Interval>, b: nat, e: nat, w: seq<Interval>)
    requires Canonical(s) && Spliced(s, x, pos, s1)
    requires b == (if pos > 0 then pos - 1 else 0) && pos < e <= |s1|
    requires e < |s1| ==> x.max < s1[e].min
    requires Coalesced(w, s1, b, e)
    ensures Canonical(s1[..b] + w + s1[e..])
    ensures forall p :: Covers(s1[..b] + w + s1[e..], p) <==> Covers(s, p) || x.Contains(p)
  {
    var q :| b <= q < e && s1[q].max == w[|w| - 1].max;
    AddWindowCanonical(s, x, pos, s1, b, e, w, q);
    hide Canonical, Spliced;
    forall p
      ensures Covers(s1[..b] + w + s1[e..], p) <==> Covers(s, p) || x.Contains(p)
    {
      assert Covers(w, p) <==> Covers(s1[b..e], p);
      hide Covers, Coalesced;
      AddWindowPoints(s, x, pos, s1, b, e, w, p);
    }
  }

  lemma AddWindowPoints(s: seq<Interval>, x: Interval, pos: nat, s1: seq<Interval>, b: nat, e: nat,
                        w: seq<Interval>, p: int)
    requires Spliced(s, x, pos, s1) && b <= e <= |s1|
    requires Covers(w, p) <==> Covers(s1[b..e], p)
    ensures Covers(s1[..b] + w + s1[e..], p) <==> Covers(s, p) || x.Contains(p)
  {
    hide Covers;
    CoversConcat3(s1[..b], w, s1[e..], p);
    assert s1 == s1[..b] + s1[b..e] + s1[e..];
    CoversConcat3(s1[..b], s1[b..e], s1[e..], p);
    CoversConcat3(s[..pos], [x], s[pos..], p);
    CoversSplit(s, pos, p);
    CoversOne(x, p);
  }

  lemma AddWindowCanonical(s: seq<Interval>, x: Interval, pos: nat, s1: seq<Interval>, b: nat, e: nat,
                           w: seq<Interval>, q: nat)
    requires Canonical(s) && Spliced(s, x, pos, s1)
    requires b == (if pos > 0 then pos - 1 else 0) && pos < e <= |s1|
    requires e < |s1| ==> x.max < s1[e].min
    requires Canonical(w) && w != [] && w[0].min == s1[b].min
    requires b <= q < e && s1[q].max == w[|w| - 1].max
    ensures Canonical(s1[..b] + w + s1[e..])
  {
    var pre, post := s1[..b], s1[e..];
    assert pre == s[..b] && post == s[e - 1..];
    if b > 0 { assert s1[b] == s[b] && pre[b - 1] == s[b - 1]; }
    JoinCanonical(pre, w);
    assert (pre + w)[|pre + w| - 1] == w[|w| - 1];
    if post == [] {
      assert pre + w + post == pre + w;
    } else {
      LastBeforeRest(s, x, pos, s1, e, q);
      JoinCanonical(pre + w, post);
    }
  }

  lemma LastBeforeRest(s: seq<Interval>, x: Interval, pos: nat, s1: seq<Interval>, e: nat, q: nat)
    requires Canonical(s) && Spliced(s, x, pos, s1) && pos < e < |s1| && q < e
    requires x.max < s1[e].min
    ensures s1[q].max < s1[e].min
  {
    assert s1[e] == s[e - 1];
    if q < pos { assert s1[q] == s[q]; }
    if q > pos { assert s1[q] == s[q - 1]; }
  }

  lemma JoinCanonical(a: seq<Interval>, b: seq<Interval>)
    requires Canonical(a) && Canonical(b) && b != []
    requires a != [] ==> a[|a| - 1].max < b[0].min
    ensures Canonical(a + b)
  {
    forall i, j | 0 <= i < |a| && 0 <= j < |b|
      ensures a[i].max < b[j].min
    {
      assert i < |a| - 1 ==> a[i].max < a[|a| - 1].min;
      assert j > 0 ==> b[0].max < b[j].min;
    }
  }

  /** `upper_bound([x.max, x.max))` lies beyond x and before the first interval x cannot touch. */
  lemma WindowBounds(s: seq<Interval>, x: Interval, pos: nat, s1: seq<Interval>, e: nat)
    requires Canonical(s) && !x.Empty() && Spliced(s, x, pos, s1)
    requires pos == LowerBound(s, x)
    requires e == UpperBound(s1, Interval(x.max, x.max))
    ensures pos < e
    ensures e < |s1| ==> x.max < s1[e].min
  {
    forall i | 0 <= i <= pos
      ensures !Less(Interval(x.max, x.max), s1[i])
    {
      if i < pos { assert Less(s[i], x); }
    }
    if e < |s1| {
      assert s1[e] == s[e - 1];
    }
  }
}
