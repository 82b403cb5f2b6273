/** Sequences of intervals as `std::set<Interval, IntervalComparator>` keeps them, and
    the set of points such a sequence stands for (base/interval_set.h). */
module IntervalRuns {
  import opened Intervals

  /** `IntervalComparator`: ascending min, then descending max. */
  predicate Less(a: Interval, b: Interval) {
    a.min < b.min || (a.min == b.min && a.max > b.max)
  }

  /** What `std::set` guarantees: strictly increasing in the comparator's order. */
  ghost predicate Sorted(s: seq<Interval>) {
    forall i, j :: 0 <= i < j < |s| ==> Less(s[i], s[j])
  }

  /** What `IntervalSet` guarantees: non-empty, ordered, disjoint and non-adjacent. */
  ghost predicate Canonical(s: seq<Interval>) {
    && (forall i :: 0 <= i < |s| ==> s[i].min < s[i].max)
    && (forall i, j :: 0 <= i < j < |s| ==> s[i].max < s[j].min)
  }

  ghost predicate NonEmpty(s: seq<Interval>) {
    forall i :: 0 <= i < |s| ==> s[i].min < s[i].max
  }

  /** The denotation: p lies in some interval of s. */
  ghost predicate Covers(s: seq<Interval>, p: int) {
    exists i :: 0 <= i < |s| && s[i].Contains(p)
  }

  lemma CanonicalIsSorted(s: seq<Interval>)
    requires Canonical(s)
    ensures Sorted(s) && NonEmpty(s)
  {
  }

  lemma CoversConcat(a: seq<Interval>, b: seq<Interval>, p: int)
    ensures Covers(a + b, p) <==> Covers(a, p) || Covers(b, p)
  {
    if i :| 0 <= i < |a| && a[i].Contains(p) {
      assert (a + b)[i].Contains(p);
    }
    if i :| 0 <= i < |b| && b[i].Contains(p) {
      assert (a + b)[|a| + i].Contains(p);
    }
  }

  lemma CoversConcat3(a: seq<Interval>, b: seq<Interval>, c: seq<Interval>, p: int)
    ensures Covers(a + b + c, p) <==> Covers(a, p) || Covers(b, p) || Covers(c, p)
  {
    CoversConcat(a + b, c, p);
    CoversConcat(a, b, p);
  }

  lemma CoversSplit(s: seq<Interval>, m: nat, p: int)
    requires m <= |s|
    ensures Covers(s, p) <==> Covers(s[..m], p) || Covers(s[m..], p)
  {
    assert s == s[..m] + s[m..];
    CoversConcat(s[..m], s[m..], p);
  }

  lemma CoversOne(i: Interval, p: int)
    ensures Covers([i], p) <==> i.Contains(p)
  {
    if i.Contains(p) {
      assert [i][0].Contains(p);
    }
  }

  // ----- Canonical form --------------------------------------------------------

  /** The first interval of a canonical run is decided by the points alone. */
  lemma SameFirst(a: seq<Interval>, b: seq<Interval>)
    requires Canonical(a) && Canonical(b) && a != [] && b != []
    requires forall p :: Covers(a, p) <==> Covers(b, p)
    ensures a[0] == b[0]
  {
    FirstMin(a, b);
    FirstMin(b, a);
    FirstMax(a, b);
    FirstMax(b, a);
  }

  lemma FirstMin(a: seq<Interval>, b: seq<Interval>)
    requires Canonical(a) && Canonical(b) && a != [] && b != []
    requires forall p :: Covers(a, p) ==> Covers(b, p)
    ensures b[0].min <= a[0].min
  {
    assert a[0].Contains(a[0].min);
    assert Covers(b, a[0].min);
    var k :| 0 <= k < |b| && b[k].Contains(a[0].min);
    assert k > 0 ==> b[0].max < b[k].min;
  }

  lemma FirstMax(a: seq<Interval>, b: seq<Interval>)
    requires Canonical(a) && Canonical(b) && a != [] && b != []
    requires a[0].min == b[0].min
    requires forall p :: Covers(a, p) ==> Covers(b, p)
    ensures a[0].max <= b[0].max
  {
    GapAfter(b, 0);
    assert !a[0].Contains(b[0].max);
  }

  /** The right end of an interval of a canonical run is not covered. */
  lemma GapAfter(s: seq<Interval>, k: nat)
    requires Canonical(s) && k < |s|
    ensures !Covers(s, s[k].max)
  {
  }

  lemma TailCovers(s: seq<Interval>, p: int)
    requires Canonical(s) && s != []
    ensures Covers(s[1..], p) <==> Covers(s, p) && s[0].max <= p
  {
    if k :| 0 <= k < |s[1..]| && s[1..][k].Contains(p) {
      assert s[k + 1].Contains(p) && s[0].max < s[k + 1].min;
    }
    if Covers(s, p) && s[0].max <= p {
      var k :| 0 <= k < |s| && s[k].Contains(p);
      assert s[1..][k - 1].Contains(p);
    }
  }

  /** Canonical runs are a normal form: same points if and only if same sequence. */
  lemma {:induction false} CanonicalForm(a: seq<Interval>, b: seq<Interval>)
    requires Canonical(a) && Canonical(b)
    ensures a == b <==> forall p :: Covers(a, p) <==> Covers(b, p)
    decreases |a|
  {
    if forall p :: Covers(a, p) <==> Covers(b, p) {
      if a == [] {
        OnlyEmptyCoversNothing(b);
      } else if b == [] {
        OnlyEmptyCoversNothing(a);
      } else {
        TailCanonical(a);
        TailCanonical(b);
        SameFirst(a, b);
        hide Covers, Canonical;
        forall p
          ensures Covers(a[1..], p) <==> Covers(b[1..], p)
        {
          TailCovers(a, p);
          TailCovers(b, p);
        }
        CanonicalForm(a[1..], b[1..]);
        assert a == [a[0]] + a[1..] && b == [b[0]] + b[1..];
      }
    }
  }

  lemma OnlyEmptyCoversNothing(s: seq<Interval>)
    requires Canonical(s)
    ensures s == [] <==> forall p :: !Covers(s, p)
  {
    if s != [] {
      assert s[0].Contains(s[0].min);
      assert Covers(s, s[0].min);
    }
  }

  lemma TailCanonical(s: seq<Interval>)
    requires Canonical(s) && s != []
    ensures Canonical(s[1..])
  {
  }

  /** r is what `Complement(min, max)` makes of a. */
  ghost predicate IsComplement(a: seq<Interval>, min: int, max: int, r: seq<Interval>) {
    Canonical(r) && forall p :: Covers(r, p) <==> min <= p < max && !Covers(a, p)
  }

  /** Complementing twice is intersecting with [min, max), interval by interval. */
  lemma ComplementTwice(a: seq<Interval>, min: int, max: int, b: seq<Interval>, c: seq<Interval>, d: seq<Interval>)
    requires IsComplement(a, min, max, b) && IsComplement(b, min, max, c)
    requires Canonical(d) && forall p :: Covers(d, p) <==> Covers(a, p) && min <= p < max
    ensures c == d
  {
    forall p
      ensures Covers(c, p) <==> Covers(d, p)
    {
      assert Covers(b, p) <==> min <= p < max && !Covers(a, p);
    }
    CanonicalForm(c, d);
  }

  /** A stretch of points covered by a canonical run lies in one of its intervals. */
  lemma CoveredStretch(s: seq<Interval>, i: Interval)
    requires Canonical(s) && !i.Empty()
    ensures (forall p :: i.Contains(p) ==> Covers(s, p))
            <==> exists k :: 0 <= k < |s| && s[k].Includes(i)
  {
    if forall p :: i.Contains(p) ==> Covers(s, p) {
      assert i.Contains(i.min);
      var k :| 0 <= k < |s| && s[k].Contains(i.min);
      GapAfter(s, k);
      assert !i.Contains(s[k].max);
      assert s[k].Includes(i);
    }
    if k :| 0 <= k < |s| && s[k].Includes(i) {
      forall p | i.Contains(p)
        ensures Covers(s, p)
      {
        assert s[k].Contains(p);
      }
    }
  }

  // ----- The std::set operations the source relies on --------------------------

  /** `std::set::upper_bound`: index of the first element greater than the probe. */
  function UpperBound(s: seq<Interval>, probe: Interval): (k: nat)
    ensures k <= |s|
    ensures forall i :: 0 <= i < k ==> !Less(probe, s[i])
    ensures k < |s| ==> Less(probe, s[k])
  {
    if s == [] || Less(probe, s[0]) then 0 else 1 + UpperBound(s[1..], probe)
  }

  /** Where `std::set::insert` puts x: before the first element not less than x. */
  function LowerBound(s: seq<Interval>, x: Interval): (k: nat)
    ensures k <= |s|
    ensures forall i :: 0 <= i < k ==> Less(s[i], x)
    ensures k < |s| ==> !Less(s[k], x)
  {
    if s == [] || !Less(s[0], x) then 0 else 1 + LowerBound(s[1..], x)
  }

  /** An element that fits strictly between two neighbours is inserted there, and is new. */
  lemma InsertSpot(s: seq<Interval>, x: Interval, k: nat)
    requires Sorted(s) && k <= |s|
    requires k > 0 ==> Less(s[k - 1], x)
    requires k < |s| ==> Less(x, s[k])
    ensures LowerBound(s, x) == k && x !in s
    ensures Sorted(s[..k] + [x] + s[k..])
  {
    forall i | 0 <= i < k
      ensures Less(s[i], x)
    {
      assert i < k - 1 ==> Less(s[i], s[k - 1]);
    }
    forall i | k <= i < |s|
      ensures Less(x, s[i])
    {
      assert k < i ==> Less(s[k], s[i]);
    }
    assert LowerBound(s, x) == k;
    SpliceSorted(s, x, k);
  }

  lemma SpliceSorted(s: seq<Interval>, x: Interval, k: nat)
    requires Sorted(s) && k <= |s|
    requires forall i :: 0 <= i < k ==> Less(s[i], x)
    requires forall i :: k <= i < |s| ==> Less(x, s[i])
    ensures Sorted(s[..k] + [x] + s[k..])
  {
    var r := s[..k] + [x] + s[k..];
    assert forall i :: 0 <= i < k ==> r[i] == s[i];
    assert forall i :: k < i < |r| ==> r[i] == s[i - 1];
  }
}
