/** `IntervalSet` (base/interval_set.h): a set of integers kept as the shortest sorted list
    of half-open intervals, edited in place. An iterator into `intervals_` is an index
    into `intervals`; where the source relies on iterators surviving an insertion or an
    erasure to their left, the index is moved along. */
module IntervalSets {
  import opened Intervals
  import opened IntervalRuns
  import opened IntervalSweeps

  class IntervalSet {
    var intervals: seq<Interval>

    ghost predicate Valid()
      reads this
    {
      Canonical(intervals)
    }

    /** The points of the set. */
    ghost predicate Has(p: int)
      reads this
    {
      Covers(intervals, p)
    }

    constructor ()
      ensures Valid() && intervals == []
    {
      intervals := [];
    }

    /** `IntervalSet(interval)`: the given interval, or nothing if it is empty. */
    constructor Of(interval: Interval)
      ensures Valid()
      ensures forall p :: Has(p) <==> interval.Contains(p)
    {
      intervals := [];
      new;
      Add(interval);
    }

    // ----- std::set primitives --------------------------------------------------

    method Insert(x: Interval) returns (pos: nat, inserted: bool)
      requires Sorted(intervals)
      modifies this
      ensures Sorted(intervals) && pos < |intervals| && intervals[pos] == x
      ensures pos == LowerBound(old(intervals), x)
      ensures inserted <==> x !in old(intervals)
      ensures intervals == if inserted then old(intervals)[..pos] + [x] + old(intervals)[pos..] else old(intervals)
    {
      pos := LowerBound(intervals, x);
      inserted := !(pos < |intervals| && !Less(x, intervals[pos]));
      if inserted {
        InsertSpot(intervals, x, pos);
        intervals := intervals[..pos] + [x] + intervals[pos..];
      }
    }

    method Erase(from: nat, to: nat)
      requires from <= to <= |intervals|
      modifies this
      ensures intervals == old(intervals)[..from] + old(intervals)[to..]
    {
      intervals := intervals[..from] + intervals[to..];
    }

    // ----- Queries --------------------------------------------------------------

    function SpanningInterval(): (r: Interval)
      reads this
      ensures intervals == [] ==> r.Empty()
      ensures Valid() ==> forall p :: Has(p) ==> r.Contains(p)
      ensures Valid() && intervals != [] ==> Has(r.min) && Has(r.max - 1)
    {
      if intervals == [] then Interval(0, 0)
      else
        var r := Interval(intervals[0].min, intervals[|intervals| - 1].max);
        assert intervals[0].min < intervals[0].max ==> intervals[0].Contains(r.min);
        assert intervals[|intervals| - 1].min < r.max ==> intervals[|intervals| - 1].Contains(r.max - 1);
        r
    }

    /** Contains(value): upper_bound of the empty probe, then one step back. */
    predicate ContainsValue(value: int)
      requires Valid()
      reads this
      ensures ContainsValue(value) <==> Has(value)
    {
      var it := UpperBound(intervals, Interval(value, value));
      if it == 0 then false else intervals[it - 1].Contains(value)
    }

    /** Contains(interval): every point is in the set; false for an empty interval. */
    predicate ContainsInterval(interval: Interval)
      requires Valid()
      reads this
      ensures ContainsInterval(interval)
              <==> !interval.Empty() && forall p :: interval.Contains(p) ==> Has(p)
    {
      var it := UpperBound(intervals, interval);
      StepBack(intervals, interval);
      if !interval.Empty() then CoveredStretch(intervals, interval);
        if it == 0 then false else intervals[it - 1].Includes(interval)
      else if it == 0 then false else intervals[it - 1].Includes(interval)
    }

    /** Find(value): the index of the one interval that holds value, or end(). */
    function FindValue(value: int): (k: nat)
      requires Valid()
      reads this
      ensures k <= |intervals|
      ensures k < |intervals| <==> Has(value)
      ensures forall i :: 0 <= i < |intervals| && intervals[i].Contains(value) ==> i == k
    {
      var it := UpperBound(intervals, Interval(value, value));
      if it == 0 then |intervals|
      else if intervals[it - 1].Contains(value) then it - 1 else |intervals|
    }

    /** Find(probe): the index of the one interval that includes the probe, or end(). */
    function FindInterval(probe: Interval): (k: nat)
      requires Valid()
      reads this
      ensures k <= |intervals|
      ensures k < |intervals| <==> exists i :: 0 <= i < |intervals| && intervals[i].Includes(probe)
      ensures forall i :: 0 <= i < |intervals| && intervals[i].Includes(probe) ==> i == k
    {
      var it := UpperBound(intervals, probe);
      StepBack(intervals, probe);
      if it == 0 then |intervals|
      else if intervals[it - 1].Includes(probe) then it - 1 else |intervals|
    }

    /** On a non-empty argument: no point of it is in the set. On an empty one the
        answer depends on its min(): it must not be a member. */
    predicate IsDisjoint(interval: Interval)
      requires Valid()
      reads this
      ensures IsDisjoint(interval)
              <==> (forall p :: interval.Contains(p) ==> !Has(p)) && (interval.Empty() ==> !Has(interval.min))
    {
      var it := UpperBound(intervals, Interval(interval.min, interval.min));
      DisjointProbe(intervals, interval);
      assert Untouched(intervals, interval)
             <==> (forall p :: interval.Contains(p) ==> !Has(p)) && (interval.Empty() ==> !Has(interval.min));
      if it < |intervals| && interval.max > intervals[it].min then false
      else if it == 0 then true
      else intervals[it - 1].max <= interval.min
    }

    /** Index of the first interval that can meet the given one or anything after it. */
    function FindIntersectionCandidate(interval: Interval): (k: nat)
      reads this
      ensures k <= |intervals|
      ensures k == |intervals| <==> intervals == []
      ensures Valid() ==> forall i :: 0 <= i < k ==> intervals[i].max <= interval.min
    {
      var mine := UpperBound(intervals, interval);
      assert mine > 0 ==> !Less(interval, intervals[mine - 1]);
      if mine != 0 then mine - 1 else mine
    }

    /** The integrity check: true exactly when the representation is canonical. */
    method CheckValid() returns (ok: bool)
      ensures ok <==> Valid()
    {
      var it := 0;
      while it < |intervals|
        invariant 0 <= it <= |intervals|
        invariant Canonical(intervals[..it])
      {
        if intervals[it].min >= intervals[it].max {
          return false;
        }
        if it > 0 && intervals[it - 1].max >= intervals[it].min {
          return false;
        }
        JoinCanonical(intervals[..it], [intervals[it]]);
        assert intervals[..it + 1] == intervals[..it] + [intervals[it]];
        it := it + 1;
      }
      assert intervals[..it] == intervals;
      ok := true;
    }

    /** Memberwise equality decides equality of the point sets. */
    method Equals(other: IntervalSet) returns (equal: bool)
      requires Valid() && other.Valid()
      ensures equal <==> forall p :: Has(p) <==> other.Has(p)
    {
      PointsDecide(other);
      if |intervals| != |other.intervals| {
        return false;
      }
      var i := 0;
      while i < |intervals|
        invariant 0 <= i <= |intervals|
        invariant forall k :: 0 <= k < i ==> intervals[k] == other.intervals[k]
      {
        if intervals[i].min != other.intervals[i].min || intervals[i].max != other.intervals[i].max {
          return false;
        }
        i := i + 1;
      }
      equal := true;
    }

    lemma PointsDecide(other: IntervalSet)
      requires Valid() && other.Valid()
      ensures intervals == other.intervals <==> forall p :: Has(p) <==> other.Has(p)
    {
      CanonicalForm(intervals, other.intervals);
      if forall p :: Has(p) <==> other.Has(p) {
        forall p
          ensures Covers(intervals, p) <==> Covers(other.intervals, p)
        {
          assert Has(p) <==> other.Has(p);
        }
      }
    }

    /** Contains(other): a superset test, except that it is false for an empty other. */
    method ContainsSet(other: IntervalSet) returns (r: bool)
      requires Valid() && other.Valid()
      ensures r <==> other.intervals != [] && forall p :: other.Has(p) ==> Has(p)
    {
      SpanOfSubset(other);
      if !SpanningInterval().Includes(other.SpanningInterval()) {
        return false;
      }
      var i := 0;
      while i < |other.intervals|
        invariant 0 <= i <= |other.intervals|
        invariant forall k, p :: 0 <= k < i && other.intervals[k].Contains(p) ==> Has(p)
      {
        if !ContainsInterval(other.intervals[i]) {
          ghost var p :| other.intervals[i].Contains(p) && !Has(p);
          assert other.Has(p);
          return false;
        }
        i := i + 1;
      }
      r := true;
    }

    lemma SpanOfSubset(other: IntervalSet)
      requires Valid() && other.Valid()
      ensures other.intervals == [] ==> !SpanningInterval().Includes(other.SpanningInterval())
      ensures other.intervals != [] && (forall p :: other.Has(p) ==> Has(p)) ==>
                SpanningInterval().Includes(other.SpanningInterval())
    {
      if other.intervals != [] && forall p :: other.Has(p) ==> Has(p) {
        var o := other.SpanningInterval();
        assert other.Has(o.min) && other.Has(o.max - 1);
        assert Has(o.min) && Has(o.max - 1);
        assert o.Contains(o.min);
      }
    }

    /** Intersects(other): some point belongs to both. */
    method Intersects(other: IntervalSet) returns (r: bool)
      requires Valid() && other.Valid()
      ensures r <==> exists p :: Has(p) && other.Has(p)
    {
      if !SpanningInterval().Intersects(other.SpanningInterval()) {
        SpansApart(other);
        return false;
      }
      var mine: nat := FindIntersectionCandidate(other.intervals[0]);
      if mine == |intervals| {
        return false;
      }
      var theirs: nat := other.FindIntersectionCandidate(intervals[mine]);
      CandidatesBehind(intervals, other.intervals, mine, theirs);
      ghost var k;
      r, mine, theirs, k := FindNextIntersectingPair(other, false, mine, theirs);
      if r {
        var o := intervals[mine].Overlap(other.intervals[theirs]);
        assert o.Contains(o.min);
        assert Has(o.min) && other.Has(o.min);
      } else {
        forall p | Has(p)
          ensures !other.Has(p)
        {
          var i :| 0 <= i < |intervals| && intervals[i].Contains(p);
          ClearPoints(intervals[i], other.intervals, p);
        }
      }
    }

    lemma SpansApart(other: IntervalSet)
      requires Valid() && other.Valid()
      requires !SpanningInterval().Intersects(other.SpanningInterval())
      ensures forall p :: Has(p) ==> !other.Has(p)
    {
      var a, o := SpanningInterval(), other.SpanningInterval();
      forall p | Has(p)
        ensures !other.Has(p)
      {
        assert a.Contains(p);
        assert !o.Contains(p);
      }
    }

    // ----- Union -------------------------------------------------------------------

    /** Erases two neighbours and inserts their union, which lands in their place. */
    method MergeNeighbours(prev: nat) returns (pos: nat)
      requires Sorted(intervals) && prev + 1 < |intervals|
      requires prev > 0 ==> intervals[prev - 1].min < intervals[prev].min
      modifies this
      ensures Sorted(intervals) && pos == prev
      ensures intervals == old(intervals)[..prev] + [Union2(old(intervals)[prev], old(intervals)[prev + 1])]
                           + old(intervals)[prev + 2..]
    {
      var i := Union2(intervals[prev], intervals[prev + 1]);
      ghost var s0 := intervals;
      assert prev + 2 < |s0| ==> Less(s0[prev], s0[prev + 2]);
      Erase(prev, prev + 1);
      Erase(prev, prev + 1);
      assert intervals == s0[..prev] + s0[prev + 2..];
      SortedWithout(s0, prev);
      InsertSpot(intervals, i, prev);
      var inserted;
      pos, inserted := Insert(i);
      assert inserted;
    }

    /** One turn of the coalescing loop: merge prev and it, or move on. */
    method CompactStep(prev: nat, ghost s0: seq<Interval>, ghost b: nat, ghost w: seq<Interval>, ghost j: nat)
      returns (prev': nat, merged: bool, ghost w': seq<Interval>)
      requires Compacting(intervals, s0, b, w, j) && j < |s0| && s0[j].min < s0[j].max
      requires prev == b + |w| - 1 && (b > 0 ==> s0[b - 1].min < s0[b].min)
      modifies this
      ensures Compacting(intervals, s0, b, w', j + 1)
      ensures prev' == b + |w'| - 1 && |w'| == if merged then |w| else |w| + 1
    {
      Neighbours(s0, b, w, j, intervals);
      if intervals[prev].max >= intervals[prev + 1].min {
        w' := w[..|w| - 1] + [Union2(w[|w| - 1], s0[j])];
        CoalesceMerge(w, s0, b, j);
        SpliceMerge(s0, b, w, j, intervals);
        PrevHasRoom(s0, b, w, j);
        prev' := MergeNeighbours(prev);
        merged := true;
      } else {
        w' := w + [s0[j]];
        CoalesceKeep(w, s0, b, j);
        SpliceKeep(s0, b, w, j);
        prev', merged := prev + 1, false;
      }
    }

    /** Coalesces the neighbours in [begin, end) that overlap or touch. Works on any
        comparator-sorted window of non-empty intervals; the rest is not looked at. */
    method Compact(begin: nat, end: nat) returns (ghost w: seq<Interval>)
      requires Sorted(intervals) && begin <= end <= |intervals|
      requires forall i :: begin <= i < end ==> intervals[i].min < intervals[i].max
      requires 0 < begin < end ==> intervals[begin - 1].min < intervals[begin].min
      modifies this
      ensures begin == end ==> intervals == old(intervals)
      ensures begin < end ==> Compacting(intervals, old(intervals), begin, w, end)
    {
      hide Coalesced;
      w := [];
      if begin == end {
        return;
      }
      ghost var s0 := intervals;
      var prev, it, stop := begin, begin + 1, end;
      ghost var j := begin + 1;
      w := [s0[begin]];
      CompactStart(s0, begin);
      while it != stop
        invariant begin < j <= end
        invariant Compacting(intervals, s0, begin, w, j)
        invariant prev == begin + |w| - 1 && it == prev + 1 && stop - it == end - j
        decreases end - j
      {
        var merged;
        prev, merged, w := CompactStep(prev, s0, begin, w, j);
        // Erasing a pair and inserting its union brings the end one position closer.
        stop := if merged then stop - 1 else stop;
        it := prev + 1;
        j := j + 1;
      }
    }

    /** Add(interval): set union with the interval; the window handed to `Compact` suffices. */
    method Add(interval: Interval)
      requires Valid()
      modifies this
      ensures Valid()
      ensures forall p :: Has(p) <==> old(Has(p)) || interval.Contains(p)
      ensures interval in old(intervals) ==> intervals == old(intervals)
    {
      if interval.Empty() {
        return;
      }
      ghost var s := intervals;
      CanonicalIsSorted(s);
      hide Canonical, Sorted, Covers, Coalesced, Less;
      var pos, inserted := Insert(interval);
      if !inserted {
        MemberCovered(s, interval);
        return;
      }
      ghost var s1 := intervals;
      var begin := pos;
      if begin != 0 {
        begin := begin - 1;
      }
      var end := UpperBound(intervals, Interval(interval.max, interval.max));
      WindowBounds(s, interval, pos, s1, end);
      WindowReady(s, interval, pos, s1, begin);
      hide Spliced;
      ghost var w := Compact(begin, end);
      AddWindow(s, interval, pos, s1, begin, end, w);
    }

    /** Union(other): insert everything, then one coalescing pass over the whole set. */
    method Union(other: IntervalSet)
      requires Valid() && other.Valid() && other != this
      modifies this
      ensures Valid()
      ensures forall p :: Has(p) <==> old(Has(p)) || other.Has(p)
    {
      InsertAll(other.intervals);
      ghost var s1 := intervals;
      ghost var w := Compact(0, |intervals|);
      if s1 != [] {
        WholeWindow(intervals, s1, w);
      }
    }

    /** std::set's range insert. */
    method InsertAll(xs: seq<Interval>)
      requires Sorted(intervals) && NonEmpty(intervals) && NonEmpty(xs)
      modifies this
      ensures Sorted(intervals) && NonEmpty(intervals)
      ensures forall p :: Covers(intervals, p) <==> old(Has(p)) || Covers(xs, p)
    {
      var i := 0;
      while i < |xs|
        invariant 0 <= i <= |xs|
        invariant Sorted(intervals) && NonEmpty(intervals)
        invariant forall p :: Covers(intervals, p) <==> old(Has(p)) || Covers(xs[..i], p)
      {
        ghost var s := intervals;
        var pos, inserted := Insert(xs[i]);
        InsertPoints(s, xs[i], pos, intervals, inserted);
        forall p
          ensures Covers(xs[..i + 1], p) <==> Covers(xs[..i], p) || xs[i].Contains(p)
        {
          assert xs[..i + 1] == xs[..i] + [xs[i]];
          CoversConcat(xs[..i], [xs[i]], p);
          CoversOne(xs[i], p);
        }
        i := i + 1;
      }
      assert xs[..i] == xs;
    }

    /** Add(other): one `Add` per interval of other. A set added to itself stays as it is. */
    method AddSet(other: IntervalSet)
      requires Valid() && other.Valid()
      modifies this
      ensures Valid()
      ensures forall p :: Has(p) <==> old(Has(p)) || old(other.Has(p))
      ensures other == this ==> intervals == old(intervals)
    {
      ghost var s, y := intervals, other.intervals;
      var it := 0;
      while it < |other.intervals|
        invariant other.intervals == y && 0 <= it <= |y| && Valid()
        invariant other == this ==> intervals == s
        invariant forall p :: Covers(intervals, p) <==> Covers(s, p) || Covers(y[..it], p)
      {
        ghost var before := intervals;
        Add(other.intervals[it]);
        forall p
          ensures Covers(intervals, p) <==> Covers(before, p) || y[it].Contains(p)
          ensures Covers(y[..it + 1], p) <==> Covers(y[..it], p) || y[it].Contains(p)
        {
          assert Has(p) <==> Covers(before, p) || y[it].Contains(p);
          assert y[..it + 1] == y[..it] + [y[it]];
          CoversConcat(y[..it], [y[it]], p);
          CoversOne(y[it], p);
        }
        it := it + 1;
      }
      assert y[..it] == y;
    }

    // ----- Difference ----------------------------------------------------------------

    /** Replaces the interval at mine by what is left of it outside t. */
    method CutOut(mine: nat, t: Interval) returns (mine': nat, ghost lo: Interval, ghost hi: Interval)
      requires Valid() && mine < |intervals| && intervals[mine].Intersects(t)
      modifies this
      ensures forall p :: lo.Contains(p) || hi.Contains(p) <==> old(intervals)[mine].Contains(p) && !t.Contains(p)
      ensures !lo.Empty() ==> lo == Interval(old(intervals)[mine].min, t.min)
      ensures !hi.Empty() ==> hi == Interval(t.max, old(intervals)[mine].max)
      ensures intervals == Replace(old(intervals), mine, Pieces(lo, hi))
      ensures mine' == mine + if lo.Empty() then 0 else 1
    {
      ghost var s0 := intervals;
      var i := intervals[mine];
      Erase(mine, mine + 1);
      var overlap, low, high := i.Difference(t);
      lo, hi := low, high;
      mine' := mine;
      LowSpot(s0, mine, t, lo);
      if !low.Empty() {
        // This end cannot meet anything else; the cursor steps over it.
        var pos, inserted := Insert(low);
        assert inserted;
        mine' := mine + 1;
      }
      HighSpot(s0, mine, t, lo, hi);
      if !high.Empty() {
        var inserted;
        mine', inserted := Insert(high);
        assert inserted;
      }
    }

    /** The sweep itself, from cursors that skip nothing that matters. */
    method SweepDifference(other: IntervalSet, mine0: nat, theirs0: nat)
      requires Valid() && other.Valid() && other != this
      requires DifferenceInv(intervals, other.intervals, intervals, mine0, theirs0)
      modifies this
      ensures Valid()
      ensures forall p :: Covers(intervals, p) <==> Covers(old(intervals), p) && !Covers(other.intervals, p)
    {
      ghost var orig, ys := intervals, other.intervals;
      var found, mine: nat, theirs: nat, k := FindNextIntersectingPair(other, false, mine0, theirs0);
      while found
        invariant other.intervals == ys
        invariant DifferenceInv(orig, ys, intervals, mine, theirs)
        invariant found ==> mine < |intervals| && theirs < |ys| && intervals[mine].Intersects(ys[theirs])
        invariant !found ==> forall i :: mine <= i < |intervals| ==> Clear(intervals[i], ys)
        decreases found, Remaining(intervals, ys, mine, theirs)
      {
        mine := CutNext(orig, ys, mine, theirs, other.intervals[theirs]);
        ghost var m1, t1 := mine, theirs;
        found, mine, theirs, k := FindNextIntersectingPair(other, false, mine, theirs);
        SkipShrinks(intervals, ys, m1, t1, mine, theirs);
      }
      DifferenceDone(orig, ys, intervals, mine, theirs);
    }

    /** The body of the sweep. */
    method CutNext(ghost orig: seq<Interval>, ghost ys: seq<Interval>, m: nat, ghost t: nat, their: Interval)
      returns (mine: nat)
      requires DifferenceInv(orig, ys, intervals, m, t)
      requires m < |intervals| && t < |ys| && their == ys[t] && intervals[m].Intersects(their)
      modifies this
      ensures DifferenceInv(orig, ys, intervals, mine, t)
      ensures Remaining(intervals, ys, mine, t) < old(Remaining(intervals, ys, m, t))
    {
      ghost var s := intervals;
      ghost var lo, hi;
      mine, lo, hi := CutOut(m, their);
      DifferenceStep(orig, ys, s, m, t, lo, hi);
      CutShrinks(s, ys, m, t, lo, hi);
    }

    /** Difference(other): set difference, by the in-place two-cursor sweep. */
    method Difference(other: IntervalSet)
      requires Valid() && other.Valid() && other != this
      modifies this
      ensures Valid()
      ensures forall p :: Has(p) <==> old(Has(p)) && !other.Has(p)
    {
      if !SpanningInterval().Intersects(other.SpanningInterval()) {
        SpansApart(other);
        return;
      }
      var mine := FindIntersectionCandidate(other.intervals[0]);
      if mine == |intervals| {
        return;
      }
      var theirs := other.FindIntersectionCandidate(intervals[0]);
      StartAtFront(intervals, other.intervals, mine, theirs);
      SweepDifference(other, mine, theirs);
    }

    /** Difference(interval). */
    method DifferenceInterval(interval: Interval)
      requires Valid()
      modifies this
      ensures Valid()
      ensures forall p :: Has(p) <==> old(Has(p)) && !interval.Contains(p)
    {
      if !SpanningInterval().Intersects(interval) {
        forall p | Has(p)
          ensures !interval.Contains(p)
        {
          assert SpanningInterval().Contains(p);
        }
        return;
      }
      var other := new IntervalSet.Of(interval);
      Difference(other);
    }

    /** Complement(min, max): the points of [min, max) that were not in the set. */
    method Complement(min: int, max: int)
      requires Valid()
      modifies this
      ensures Valid()
      ensures forall p :: Has(p) <==> min <= p < max && !old(Has(p))
    {
      var span := new IntervalSet.Of(Interval(min, max));
      span.Difference(this);
      ghost var s0 := intervals;
      intervals := span.intervals;
      forall p
        ensures Has(p) <==> min <= p < max && !Covers(s0, p)
      {
        assert Has(p) <==> span.Has(p);
      }
    }

    // ----- Intersection ----------------------------------------------------------------

    /** Replaces the interval at m by its overlaps with y[t], y[t + 1], ... as far as they
        meet it. Every insertion is new and lands right after the previous one. */
    method CutDown(m: nat, y: seq<Interval>, t: nat) returns (mine: nat, theirs: nat, ghost acc: seq<Interval>)
      requires Valid() && Canonical(y) && m < |intervals| && t < |y| && intervals[m].Intersects(y[t])
      modifies this
      ensures intervals == Replace(old(intervals), m, acc)
      ensures Cuts(acc, old(intervals)[m], y, t, theirs) && t < theirs
      ensures theirs < |y| ==> !old(intervals)[m].Intersects(y[theirs])
      ensures mine == m + |acc| - 1
    {
      ghost var s0 := intervals;
      var i := intervals[m];
      Erase(m, m + 1);
      mine, theirs, acc := |intervals|, t, [];
      assert intervals == Replace(s0, m, acc);
      while theirs < |y| && i.Intersects(y[theirs])
        invariant t <= theirs <= |y|
        invariant Cuts(acc, i, y, t, theirs)
        invariant intervals == Replace(s0, m, acc)
        invariant acc != [] ==> mine == m + |acc| - 1
      {
        var intersection := i.Overlap(y[theirs]);
        NextCut(s0, m, y, t, theirs, acc);
        var inserted;
        mine, inserted := Insert(intersection);
        assert inserted;
        acc := acc + [intersection];
        theirs := theirs + 1;
      }
    }

    /** Runs the erasing cursor pair from a consistent position. */
    method NextCommon(other: IntervalSet, ghost orig: seq<Interval>, m: nat, t: nat)
      returns (found: bool, mine: nat, theirs: nat, ghost t': nat)
      requires Valid() && other.Valid() && other != this
      requires IntersectionInv(orig, other.intervals, intervals, m, t)
      modifies this
      ensures Valid() && IntersectionInv(orig, other.intervals, intervals, mine, t')
      ensures found ==> theirs == t' && mine < |intervals| && intervals[mine].Intersects(other.intervals[theirs])
      ensures !found ==> mine == |intervals|
      ensures |intervals| - mine <= |old(intervals)| - m
    {
      ghost var s := intervals;
      ghost var k;
      found, mine, theirs, k := FindNextIntersectingPair(other, true, m, t);
      t' := if found then theirs else t;
      EraseClear(orig, other.intervals, s, m, t, intervals, t', k);
    }

    /** The body of the sweep: i becomes its overlaps, and the cursors move past all but the last. */
    method CutCommon(ghost orig: seq<Interval>, y: seq<Interval>, m: nat, t: nat)
      returns (mine: nat, theirs: nat)
      requires IntersectionInv(orig, y, intervals, m, t)
      requires m < |intervals| && intervals[m].Intersects(y[t])
      modifies this
      ensures IntersectionInv(orig, y, intervals, mine, theirs)
      ensures |intervals| - mine < |old(intervals)| - m
    {
      ghost var s := intervals;
      ghost var acc;
      mine, theirs, acc := CutDown(m, y, t);
      IntersectionStep(orig, y, s, m, t, acc, theirs);
      theirs := theirs - 1;
      mine := mine + 1;
    }

    /** Intersection(other): the common points, by the sweep that erases holes. */
    method Intersection(other: IntervalSet)
      requires Valid() && other.Valid() && other != this
      modifies this
      ensures Valid()
      ensures forall p :: Has(p) <==> old(Has(p)) && other.Has(p)
    {
      if !SpanningInterval().Intersects(other.SpanningInterval()) {
        SpansApart(other);
        intervals := [];
        return;
      }
      ghost var orig := intervals;
      var theirs := SkipToCandidates(other);
      hide IntersectionInv;
      SweepIntersection(other, orig, theirs);
    }

    /** Erases what lies before the first candidate and positions the other cursor. */
    method SkipToCandidates(other: IntervalSet) returns (theirs: nat)
      requires Valid() && other.Valid() && other != this && intervals != [] && other.intervals != []
      modifies this
      ensures Valid() && IntersectionInv(old(intervals), other.intervals, intervals, 0, theirs)
    {
      var mine := FindIntersectionCandidate(other.intervals[0]);
      // Nothing before mine reaches other.
      Erase(0, mine);
      theirs := other.FindIntersectionCandidate(intervals[0]);
      StartErased(old(intervals), other.intervals, intervals, mine, theirs);
    }

    method SweepIntersection(other: IntervalSet, ghost orig: seq<Interval>, theirs0: nat)
      requires Valid() && other.Valid() && other != this
      requires IntersectionInv(orig, other.intervals, intervals, 0, theirs0)
      modifies this
      ensures Valid()
      ensures forall p :: Covers(intervals, p) <==> Covers(orig, p) && Covers(other.intervals, p)
    {
      ghost var ys := other.intervals;
      var found, mine: nat, theirs: nat, t' := NextCommon(other, orig, 0, theirs0);
      while found
        invariant other.intervals == ys && IntersectionInv(orig, ys, intervals, mine, t')
        invariant found ==> theirs == t' && mine < |intervals| && intervals[mine].Intersects(ys[theirs])
        invariant !found ==> mine == |intervals|
        decreases found, |intervals| - mine
      {
        mine, theirs := CutCommon(orig, other.intervals, mine, theirs);
        found, mine, theirs, t' := NextCommon(other, orig, mine, theirs);
      }
      IntersectionDone(orig, ys, intervals, t');
    }

    /** Complementing twice is intersecting with [min, max), as `Equals` sees it and interval by
        interval; `copy` starts as a copy of s. */
    static method ComplementTwice(s: IntervalSet, copy: IntervalSet, min: int, max: int) returns (equal: bool)
      requires s.Valid() && copy.Valid() && s != copy && copy.intervals == s.intervals
      modifies s, copy
      ensures equal && s.Valid() && copy.Valid() && s.intervals == copy.intervals
      ensures forall p :: s.Has(p) <==> old(s.Has(p)) && min <= p < max
    {
      ghost var a := s.intervals;
      var window := new IntervalSet.Of(Interval(min, max));
      s.Complement(min, max);
      s.Complement(min, max);
      copy.Intersection(window);
      equal := s.Equals(copy);
      s.PointsDecide(copy);
    }

    // ----- The cursor pair ------------------------------------------------------

    /** Advances both cursors to the next intersecting pair. Every interval of this set
        that is passed over meets nothing in y; with eraseHoles those are erased. */
    method FindNextIntersectingPair(y: IntervalSet, eraseHoles: bool, mine0: nat, theirs0: nat)
      returns (found: bool, mine: nat, theirs: nat, ghost skipped: nat)
      requires Valid() && y.Valid() && (eraseHoles ==> y != this)
      requires mine0 <= |intervals| && theirs0 <= |y.intervals|
      requires Behind(y.intervals, theirs0, intervals, mine0)
      modifies if eraseHoles then {this} else {}
      ensures Valid() && y.Valid() && y.intervals == old(y.intervals)
      ensures Advanced(old(intervals), intervals, y.intervals, eraseHoles, mine0, mine, skipped)
      ensures theirs0 <= theirs <= |y.intervals| && Behind(y.intervals, theirs, intervals, mine)
      ensures found ==> mine < |intervals| && theirs < |y.intervals|
                        && intervals[mine].Intersects(y.intervals[theirs])
      ensures !found ==> forall i :: mine <= i < |intervals| ==> Clear(intervals[i], y.intervals)
      ensures !found && eraseHoles && theirs0 < |y.intervals| ==> mine == |intervals|
      ensures found && skipped == 0 && theirs == theirs0 ==>
                old(intervals)[mine0].Intersects(y.intervals[theirs0])
    {
      var s;
      found, s, mine, theirs, skipped := NextPair(intervals, y.intervals, eraseHoles, mine0, theirs0);
      if eraseHoles {
        intervals := s;
      }
    }
  }

  /** `FindNextIntersectingPairImpl`, on the interval lists of the two sets. */
  method NextPair(s0: seq<Interval>, y: seq<Interval>, erase: bool, mine0: nat, theirs0: nat)
    returns (found: bool, s: seq<Interval>, mine: nat, theirs: nat, ghost skipped: nat)
    requires Canonical(s0) && Canonical(y) && mine0 <= |s0| && theirs0 <= |y| && Behind(y, theirs0, s0, mine0)
    ensures Canonical(s) && Advanced(s0, s, y, erase, mine0, mine, skipped)
    ensures theirs0 <= theirs <= |y| && Behind(y, theirs, s, mine)
    ensures found ==> mine < |s| && theirs < |y| && s[mine].Intersects(y[theirs])
    ensures !found ==> forall i :: mine <= i < |s| ==> Clear(s[i], y)
    ensures !found && erase && theirs0 < |y| ==> mine == |s|
    ensures found && skipped == 0 && theirs == theirs0 ==> s0[mine0].Intersects(y[theirs0])
  {
    if theirs0 == |y| { NothingAhead(s0, y, mine0); }
    Start(s0, y, erase, mine0);
    hide Canonical, Clear, Behind, Advanced;
    found, s, mine, theirs, skipped := false, s0, mine0, theirs0, 0;
    if mine == |s| || theirs == |y| {
      return;
    }
    while !s[mine].Intersects(y[theirs])
      invariant mine < |s| && theirs0 <= theirs < |y|
      invariant Canonical(s) && Advanced(s0, s, y, erase, mine0, mine, skipped) && Behind(y, theirs, s, mine)
      invariant skipped <= |s0| - mine0 && (skipped == 0 ==> s == s0 && mine == mine0)
      decreases |s0| - skipped + |y| - theirs
    {
      s, mine, theirs, skipped := SkipOn(s0, s, y, erase, mine0, mine, theirs, skipped);
      if mine == |s| || theirs == |y| {
        return;
      }
    }
    found := true;
  }

  /** A round, seen from the start of the search. */
  method SkipOn(ghost s0: seq<Interval>, s: seq<Interval>, y: seq<Interval>, erase: bool, ghost mine0: nat,
                m: nat, t: nat, ghost k: nat)
    returns (s': seq<Interval>, m': nat, t': nat, ghost k': nat)
    requires Canonical(s) && Canonical(y) && m < |s| && t < |y| && Behind(y, t, s, m)
    requires Advanced(s0, s, y, erase, mine0, m, k) && !s[m].Intersects(y[t])
    ensures k <= k' <= |s0| - mine0 && t <= t' <= |y| && m' <= |s'| && k + t < k' + t'
    ensures Canonical(s') && Advanced(s0, s', y, erase, mine0, m', k') && Behind(y, t', s', m')
    ensures k' == k ==> s' == s && m' == m
    ensures m' < |s'| && t' == |y| ==> !erase && forall i :: m' <= i < |s'| ==> Clear(s'[i], y)
  {
    hide Canonical, Clear, Behind, Advanced;
    ghost var n;
    s', m', t', n := SkipRound(s, y, erase, m, t);
    PassOn(s0, s, s', y, erase, mine0, m, m', k, n);
    k' := k + n;
  }

  /** One round of the outer loop: skip (and perhaps erase) the intervals of s that do not
      reach y[t], then the intervals of y that do not reach s[m]. */
  method SkipRound(s: seq<Interval>, y: seq<Interval>, erase: bool, m: nat, t: nat)
    returns (s': seq<Interval>, m': nat, t': nat, ghost n: nat)
    requires Canonical(s) && Canonical(y) && m < |s| && t < |y| && Behind(y, t, s, m)
    requires !s[m].Intersects(y[t])
    ensures Canonical(s') && Advanced(s, s', y, erase, m, m', n)
    ensures t <= t' <= |y| && Behind(y, t', s', m')
    ensures m' < |s'| && t' == |y| ==> !erase && forall i :: m' <= i < |s'| ==> Clear(s'[i], y)
    ensures n > 0 || t' > t
  {
    assert !s[m].Empty() && !y[t].Empty();
    hide Canonical, Clear, Behind, Advanced;
    s', m', n := DropHoles(s, y, erase, m, t);
    t' := t;
    if m' == |s'| {
      return;
    }
    t' := SkipTheirs(s', y, m', t);
    if t' == |y| && erase {
      ghost var k := |s'| - m';
      Pass(s, s', y, erase, m, m', n, t', k, s'[..m'] + s'[m' + k..], m');
      s', n := s'[..m'] + s'[|s'|..], n + k;
    }
  }

  /** The first half of a round. */
  method DropHoles(s: seq<Interval>, y: seq<Interval>, erase: bool, m: nat, t: nat)
    returns (s': seq<Interval>, m': nat, ghost n: nat)
    requires Canonical(s) && Canonical(y) && m < |s| && t < |y| && Behind(y, t, s, m)
    ensures Canonical(s') && Advanced(s, s', y, erase, m, m', n) && Behind(y, t, s', m')
    ensures m' <= |s'| && (n == 0 ==> s' == s && m' == m)
    ensures m' < |s'| ==> y[t].min < s'[m'].max
  {
    hide Canonical, Clear, Behind, Advanced;
    Start(s, y, erase, m);
    var m1 := SkipHoles(s, y, m, t);
    s', m', n := s, m1, m1 - m;
    if erase {
      s', m' := s[..m] + s[m1..], m;
    }
    Pass(s, s, y, erase, m, m, 0, t, n, s', m');
    assert s[..m] + s[m..] == s;
  }

  lemma NothingAhead(s: seq<Interval>, y: seq<Interval>, m: nat)
    requires m <= |s| && Behind(y, |y|, s, m)
    ensures forall i :: m <= i < |s| ==> Clear(s[i], y)
  {
  }

  /** The first inner loop: over intervals of s that do not reach y[t]. */
  method SkipHoles(s: seq<Interval>, y: seq<Interval>, m: nat, t: nat) returns (m': nat)
    requires Canonical(s) && Canonical(y) && m <= |s| && t < |y| && Behind(y, t, s, m)
    ensures m <= m' <= |s|
    ensures forall i :: m <= i < m' ==> Clear(s[i], y)
    ensures m' < |s| ==> y[t].min < s[m'].max
  {
    m' := m;
    while m' < |s| && s[m'].max <= y[t].min
      invariant m <= m' <= |s|
      invariant forall i :: m <= i < m' ==> Clear(s[i], y)
    {
      SkipMine(s, y, m', t);
      m' := m' + 1;
    }
  }

  /** The second inner loop: over intervals of y that do not reach s[m]. */
  method SkipTheirs(s: seq<Interval>, y: seq<Interval>, m: nat, t: nat) returns (t': nat)
    requires Canonical(s) && Canonical(y) && m < |s| && t <= |y| && Behind(y, t, s, m)
    ensures t <= t' <= |y| && Behind(y, t', s, m)
    ensures t' < |y| ==> s[m].min < y[t'].max
    ensures t' == |y| ==> forall i :: m <= i < |s| ==> Clear(s[i], y)
  {
    t' := t;
    while t' < |y| && y[t'].max <= s[m].min
      invariant t <= t' <= |y|
      invariant Behind(y, t', s, m)
    {
      t' := t' + 1;
    }
  }

  // ----- Facts behind the cursor pair ---------------------------------------------

  /** From cursor mine0 in s0, `skipped` intervals that meet nothing in y were passed over,
      and erased if erase is set; s is the set now and mine the cursor. */
  ghost predicate Advanced(s0: seq<Interval>, s: seq<Interval>, y: seq<Interval>, erase: bool,
                           mine0: nat, mine: nat, skipped: nat) {
    && mine0 + skipped <= |s0| && mine <= |s|
    && (forall i :: mine0 <= i < mine0 + skipped ==> Clear(s0[i], y))
    && if erase then mine == mine0 && s == s0[..mine0] + s0[mine0 + skipped..]
       else mine == mine0 + skipped && s == s0
  }

  lemma Start(s: seq<Interval>, y: seq<Interval>, erase: bool, mine: nat)
    requires mine <= |s|
    ensures Advanced(s, s, y, erase, mine, mine, 0)
  {
    assert s == s[..mine] + s[mine + 0..];
  }

  /** Two consecutive advances make one. */
  lemma PassOn(s0: seq<Interval>, s: seq<Interval>, s': seq<Interval>, y: seq<Interval>, erase: bool,
               mine0: nat, mine: nat, mine': nat, k: nat, n: nat)
    requires Advanced(s0, s, y, erase, mine0, mine, k) && Advanced(s, s', y, erase, mine, mine', n)
    ensures Advanced(s0, s', y, erase, mine0, mine', k + n)
    ensures mine0 + k + n <= |s0| && mine' <= |s'| && (n == 0 ==> s' == s && mine' == mine)
  {
    forall i | mine0 + k <= i < mine0 + k + n
      ensures Clear(s0[i], y)
    {
      assert s0[i] == s[mine + (i - mine0 - k)];
    }
    if erase {
      assert s[..mine] + s[mine + n..] == s0[..mine0] + s0[mine0 + k + n..];
    }
  }

  /** Passing over n more clear intervals. */
  lemma Pass(s0: seq<Interval>, s: seq<Interval>, y: seq<Interval>, erase: bool,
             mine0: nat, mine: nat, skipped: nat, t: nat, n: nat, s': seq<Interval>, mine': nat)
    requires Canonical(s) && Advanced(s0, s, y, erase, mine0, mine, skipped)
    requires mine + n <= |s| && t <= |y| && Behind(y, t, s, mine)
    requires forall i :: mine <= i < mine + n ==> Clear(s[i], y)
    requires s' == (if erase then s[..mine] + s[mine + n..] else s)
    requires mine' == if erase then mine else mine + n
    ensures Canonical(s') && Advanced(s0, s', y, erase, mine0, mine', skipped + n)
    ensures Behind(y, t, s', mine')
  {
    hide Canonical, Behind, Clear;
    ClearMore(s0, s, y, erase, mine0, mine, skipped, n);
    if erase {
      EraseKeeps(s, y, mine, t, n);
      EraseMore(s0, s, y, mine0, skipped, n);
    } else {
      FurtherBehind(s, y, mine, t, n);
      KeepMore(s0, y, mine0, skipped, n);
    }
    hide Advanced;
  }

  /** The intervals now passed over, as intervals of s0. */
  lemma ClearMore(s0: seq<Interval>, s: seq<Interval>, y: seq<Interval>, erase: bool,
                  mine0: nat, mine: nat, skipped: nat, n: nat)
    requires Advanced(s0, s, y, erase, mine0, mine, skipped) && mine + n <= |s|
    requires forall i :: mine <= i < mine + n ==> Clear(s[i], y)
    ensures mine0 + skipped + n <= |s0|
    ensures forall i :: mine0 <= i < mine0 + skipped + n ==> Clear(s0[i], y)
  {
    hide Clear;
    forall i | mine0 + skipped <= i < mine0 + skipped + n
      ensures Clear(s0[i], y)
    {
      var j := mine + (i - mine0 - skipped);
      assert s[j] == s0[i];
    }
  }

  lemma EraseMore(s0: seq<Interval>, s: seq<Interval>, y: seq<Interval>, m: nat, k: nat, n: nat)
    requires m + k + n <= |s0| && s == s0[..m] + s0[m + k..]
    requires forall i :: m <= i < m + k + n ==> Clear(s0[i], y)
    ensures Advanced(s0, s[..m] + s[m + n..], y, true, m, m, k + n)
  {
    hide Clear;
    assert s[..m] == s0[..m] && s[m + n..] == s0[m + k + n..];
  }

  lemma KeepMore(s0: seq<Interval>, y: seq<Interval>, m: nat, k: nat, n: nat)
    requires m + k + n <= |s0| && forall i :: m <= i < m + k + n ==> Clear(s0[i], y)
    ensures Advanced(s0, s0, y, false, m, m + k + n, k + n)
  {
  }

  lemma FurtherBehind(s: seq<Interval>, y: seq<Interval>, m: nat, t: nat, n: nat)
    requires m + n <= |s| && t <= |y| && Behind(y, t, s, m)
    ensures Behind(y, t, s, m + n)
  {
  }

  lemma EraseKeeps(s: seq<Interval>, y: seq<Interval>, m: nat, t: nat, n: nat)
    requires Canonical(s) && m + n <= |s| && t <= |y| && Behind(y, t, s, m)
    ensures Canonical(s[..m] + s[m + n..])
    ensures Behind(y, t, s[..m] + s[m + n..], m)
  {
    var r := s[..m] + s[m + n..];
    assert forall i :: m <= i < |r| ==> r[i] == s[i + n];
  }

  // ----- Facts behind Compact -------------------------------------------------------

  /** s is s0 with its stretch [b, j) already coalesced into w. */
  ghost predicate Compacting(s: seq<Interval>, s0: seq<Interval>, b: nat, w: seq<Interval>, j: nat) {
    Coalesced(w, s0, b, j) && s == s0[..b] + w + s0[j..] && Sorted(s)
  }

  lemma MemberCovered(s: seq<Interval>, x: Interval)
    requires x in s
    ensures forall p :: x.Contains(p) ==> Covers(s, p)
  {
  }

  /** What `Compact` asks of the window `Add` hands to it. */
  lemma WindowReady(s: seq<Interval>, x: Interval, pos: nat, s1: seq<Interval>, b: nat)
    requires Canonical(s) && !x.Empty() && Spliced(s, x, pos, s1) && b == if pos > 0 then pos - 1 else 0
    ensures forall i :: 0 <= i < |s1| ==> s1[i].min < s1[i].max
    ensures 0 < b ==> s1[b - 1].min < s1[b].min
  {
    assert pos > 1 ==> s1[pos - 2] == s[pos - 2] && s1[pos - 1] == s[pos - 1];
  }

  lemma SortedWithout(s: seq<Interval>, k: nat)
    requires Sorted(s) && k + 2 <= |s|
    ensures Sorted(s[..k] + s[k + 2..])
  {
  }

  lemma CompactStart(s: seq<Interval>, b: nat)
    requires Sorted(s) && b < |s| && s[b].min < s[b].max
    ensures Compacting(s, s, b, [s[b]], b + 1)
  {
    assert s[b..b + 1] == [s[b]];
    assert s == s[..b] + [s[b]] + s[b + 1..];
  }

  lemma WholeWindow(s: seq<Interval>, s0: seq<Interval>, w: seq<Interval>)
    requires Compacting(s, s0, 0, w, |s0|)
    ensures Canonical(s) && forall p :: Covers(s, p) <==> Covers(s0, p)
  {
    assert s == w && s0[0..|s0|] == s0;
  }

  lemma Neighbours(s0: seq<Interval>, b: nat, w: seq<Interval>, j: nat, s: seq<Interval>)
    requires b <= j < |s0| && w != [] && s == s0[..b] + w + s0[j..] && Sorted(s)
    ensures s[b + |w| - 1] == w[|w| - 1] && s[b + |w|] == s0[j] && Less(w[|w| - 1], s0[j])
  {
    assert Less(s[b + |w| - 1], s[b + |w|]);
  }

  lemma SpliceMerge(s0: seq<Interval>, b: nat, w: seq<Interval>, j: nat, s: seq<Interval>)
    requires b <= j < |s0| && w != [] && s == s0[..b] + w + s0[j..]
    ensures var prev := b + |w| - 1;
            s[..prev] + [Union2(s[prev], s[prev + 1])] + s[prev + 2..]
            == s0[..b] + (w[..|w| - 1] + [Union2(w[|w| - 1], s0[j])]) + s0[j + 1..]
  {
  }

  lemma SpliceKeep(s0: seq<Interval>, b: nat, w: seq<Interval>, j: nat)
    requires b <= j < |s0|
    ensures s0[..b] + w + s0[j..] == s0[..b] + (w + [s0[j]]) + s0[j + 1..]
  {
  }

  /** The interval before the one being merged starts strictly earlier. */
  lemma PrevHasRoom(s0: seq<Interval>, b: nat, w: seq<Interval>, j: nat)
    requires b < j <= |s0| && w != [] && Canonical(w) && w[0].min == s0[b].min
    requires b > 0 ==> s0[b - 1].min < s0[b].min
    ensures var s := s0[..b] + w + s0[j..]; var prev := b + |w| - 1;
            prev > 0 ==> s[prev - 1].min < s[prev].min
  {
    var s := s0[..b] + w + s0[j..];
    if |w| > 1 {
      assert s[b + |w| - 2] == w[|w| - 2] && s[b + |w| - 1] == w[|w| - 1];
    }
  }

  lemma InsertPoints(s: seq<Interval>, x: Interval, pos: nat, s1: seq<Interval>, inserted: bool)
    requires pos <= |s| && (inserted <==> x !in s)
    requires s1 == if inserted then s[..pos] + [x] + s[pos..] else s
    ensures forall p :: Covers(s1, p) <==> Covers(s, p) || x.Contains(p)
  {
    forall p
      ensures Covers(s1, p) <==> Covers(s, p) || x.Contains(p)
    {
      if inserted {
        CoversConcat3(s[..pos], [x], s[pos..], p);
        CoversSplit(s, pos, p);
        CoversOne(x, p);
      }
    }
  }

  // ----- Facts behind the sweeps -----------------------------------------------------

  lemma StartAtFront(s: seq<Interval>, y: seq<Interval>, m: nat, t: nat)
    requires Canonical(s) && Canonical(y) && m < |s| && t < |y|
    requires forall i :: 0 <= i < m ==> s[i].max <= y[0].min
    requires forall j :: 0 <= j < t ==> y[j].max <= s[0].min
    ensures DifferenceInv(s, y, s, m, t)
  {
    assert m > 0 ==> s[0].max < s[m].min;
    CandidatesBehind(s, y, m, t);
  }

  /** Where the lower remainder goes once s[m] is erased. */
  lemma LowSpot(s: seq<Interval>, m: nat, t: Interval, lo: Interval)
    requires Canonical(s) && m < |s| && s[m].Intersects(t)
    requires !lo.Empty() ==> lo == Interval(s[m].min, t.min)
    ensures var r := s[..m] + s[m + 1..];
            && Sorted(r)
            && (!lo.Empty() ==> LowerBound(r, lo) == m && lo !in r)
            && (lo.Empty() ==> r == s[..m] + [] + s[m + 1..])
            && (!lo.Empty() ==> r[..m] + [lo] + r[m..] == s[..m] + [lo] + s[m + 1..])
  {
    var r := s[..m] + s[m + 1..];
    WithoutSorted(s, m);
    assert m > 0 ==> s[m - 1].max < s[m].min;
    assert m + 1 < |s| ==> s[m].max < s[m + 1].min;
    hide Canonical, Sorted, LowerBound;
    if !lo.Empty() {
      assert m > 0 ==> r[m - 1] == s[m - 1];
      assert m < |r| ==> r[m] == s[m + 1];
      InsertSpot(r, lo, m);
      assert r[..m] == s[..m] && r[m..] == s[m + 1..];
    }
  }

  lemma WithoutSorted(s: seq<Interval>, m: nat)
    requires Canonical(s) && m < |s|
    ensures Sorted(s[..m] + s[m + 1..])
  {
  }

  /** Where the upper remainder goes after that. */
  lemma HighSpot(s: seq<Interval>, m: nat, t: Interval, lo: Interval, hi: Interval)
    requires Canonical(s) && m < |s| && s[m].Intersects(t)
    requires !lo.Empty() ==> lo == Interval(s[m].min, t.min)
    requires !hi.Empty() ==> hi == Interval(t.max, s[m].max)
    ensures var low := if lo.Empty() then [] else [lo];
            var r := s[..m] + low + s[m + 1..];
            var k := m + |low|;
            && (hi.Empty() ==> r == Replace(s, m, Pieces(lo, hi)))
            && (!hi.Empty() ==> Sorted(r) && LowerBound(r, hi) == k && hi !in r)
            && (!hi.Empty() ==> r[..k] + [hi] + r[k..] == Replace(s, m, Pieces(lo, hi)))
  {
    var low := if lo.Empty() then [] else [lo];
    var r := s[..m] + low + s[m + 1..];
    var k := m + |low|;
    if hi.Empty() {
      assert Pieces(lo, hi) == low;
    } else {
      ReplaceCanonical(s, m, low);
      HighFits(s, m, t, lo, hi, r, k);
      InsertSpot(r, hi, k);
      assert Pieces(lo, hi) == low + [hi];
      InsertAfter(s[..m], low, s[m + 1..], hi);
    }
  }

  lemma HighFits(s: seq<Interval>, m: nat, t: Interval, lo: Interval, hi: Interval, r: seq<Interval>, k: nat)
    requires Canonical(s) && m < |s| && s[m].Intersects(t)
    requires !lo.Empty() ==> lo == Interval(s[m].min, t.min)
    requires !hi.Empty() && hi == Interval(t.max, s[m].max)
    requires var low := if lo.Empty() then [] else [lo]; r == s[..m] + low + s[m + 1..] && k == m + |low|
    ensures k > 0 ==> Less(r[k - 1], hi)
    ensures k < |r| ==> Less(hi, r[k])
  {
  }

  lemma InsertAfter(a: seq<Interval>, b: seq<Interval>, c: seq<Interval>, x: Interval)
    ensures (a + b + c)[..|a| + |b|] + [x] + (a + b + c)[|a| + |b|..] == a + (b + [x]) + c
  {
  }

  lemma CutShrinks(s: seq<Interval>, y: seq<Interval>, m: nat, t: nat, lo: Interval, hi: Interval)
    requires m < |s| && t < |y| && s[m].Intersects(y[t])
    requires !hi.Empty() ==> hi == Interval(y[t].max, s[m].max)
    ensures Remaining(Replace(s, m, Pieces(lo, hi)), y, m + (if lo.Empty() then 0 else 1), t)
            < Remaining(s, y, m, t)
  {
    var r := Replace(s, m, Pieces(lo, hi));
    var m' := m + if lo.Empty() then 0 else 1;
    if !hi.Empty() {
      assert r[m'] == hi;
    }
  }

  lemma SkipShrinks(s: seq<Interval>, y: seq<Interval>, m: nat, t: nat, m': nat, t': nat)
    requires m <= m' <= |s| && t <= t' <= |y|
    ensures Remaining(s, y, m', t') <= Remaining(s, y, m, t)
  {
  }

  lemma StartErased(orig: seq<Interval>, y: seq<Interval>, s: seq<Interval>, m: nat, t: nat)
    requires Canonical(orig) && Canonical(y) && m < |orig| && t < |y| && s == orig[m..]
    requires forall i :: 0 <= i < m ==> orig[i].max <= y[0].min
    requires forall j :: 0 <= j < t ==> y[j].max <= s[0].min
    ensures IntersectionInv(orig, y, s, 0, t)
  {
    CandidatesBehind(orig, y, m, t);
    forall p
      ensures Covers(s, p) ==> Covers(orig, p)
      ensures Covers(orig, p) && Covers(y, p) ==> Covers(s, p)
    {
      CoversSplit(orig, m, p);
      if Covers(orig[..m], p) {
        var i :| 0 <= i < |orig[..m]| && orig[..m][i].Contains(p);
        ClearPoints(orig[i], y, p);
      }
    }
  }

  /** The next overlap is new and goes right behind the ones already inserted. */
  lemma NextCut(s: seq<Interval>, m: nat, y: seq<Interval>, t: nat, b: nat, acc: seq<Interval>)
    requires Canonical(s) && Canonical(y) && m < |s| && b < |y|
    requires Cuts(acc, s[m], y, t, b) && s[m].Intersects(y[b])
    ensures var x := s[m].Overlap(y[b]);
            var r := Replace(s, m, acc);
            && Sorted(r) && LowerBound(r, x) == m + |acc| && x !in r
            && r[..m + |acc|] + [x] + r[m + |acc|..] == Replace(s, m, acc + [x])
            && Cuts(acc + [x], s[m], y, t, b + 1)
  {
    var x := s[m].Overlap(y[b]);
    var r, r' := Replace(s, m, acc), Replace(s, m, acc + [x]);
    var n := m + |acc|;
    CutsCanonical(acc + [x], s[m], y, t, b + 1);
    ReplaceCanonical(s, m, acc + [x]);
    InsertAfter(s[..m], acc, s[m + 1..], x);
    WithoutOne(r, x, n, r');
    InsertSpot(r, x, n);
  }

  lemma WithoutOne(r: seq<Interval>, x: Interval, n: nat, r': seq<Interval>)
    requires n <= |r| && r' == r[..n] + [x] + r[n..] && Canonical(r')
    ensures Sorted(r)
    ensures n > 0 ==> Less(r[n - 1], x)
    ensures n < |r| ==> Less(x, r[n])
  {
    hide Canonical, Less;
    forall i, j | 0 <= i < j < |r|
      ensures Less(r[i], r[j])
    {
      var i', j' := if i < n then i else i + 1, if j < n then j else j + 1;
      assert r[i] == r'[i'] && r[j] == r'[j'];
      OrderedLess(r', i', j');
    }
    assert r'[n] == x;
    if n > 0 {
      assert r'[n - 1] == r[n - 1];
      OrderedLess(r', n - 1, n);
    }
    if n < |r| {
      assert r'[n + 1] == r[n];
      OrderedLess(r', n, n + 1);
    }
  }

  lemma OrderedLess(s: seq<Interval>, i: nat, j: nat)
    requires Canonical(s) && i < j < |s|
    ensures Less(s[i], s[j])
  {
  }

  lemma IntersectionDone(orig: seq<Interval>, y: seq<Interval>, s: seq<Interval>, t: nat)
    requires IntersectionInv(orig, y, s, |s|, t)
    ensures forall p :: Covers(s, p) <==> Covers(orig, p) && Covers(y, p)
  {
    assert s[..|s|] == s;
  }

  // ----- Facts behind the lookups -------------------------------------------------

  /** upper_bound then one step back lands on the only interval that can include the probe. */
  lemma StepBack(s: seq<Interval>, probe: Interval)
    requires Canonical(s)
    ensures forall i :: 0 <= i < |s| && s[i].Includes(probe) ==> i == UpperBound(s, probe) - 1
  {
  }

  lemma DisjointProbe(s: seq<Interval>, i: Interval)
    requires Canonical(s)
    ensures var it := UpperBound(s, Interval(i.min, i.min));
            var r := if it < |s| && i.max > s[it].min then false
                     else if it == 0 then true else s[it - 1].max <= i.min;
            r <==> Untouched(s, i)
  {
    hide Untouched;
    var it := UpperBound(s, Interval(i.min, i.min));
    assert it < |s| ==> i.min < s[it].min;
    assert it > 0 ==> !Less(Interval(i.min, i.min), s[it - 1]) && s[it - 1].min <= i.min;
    hide Canonical, UpperBound, Less;
    if it < |s| && i.max > s[it].min {
      ReachesNext(s, i, it);
    } else if it > 0 && i.min < s[it - 1].max {
      StartsInside(s, i, it - 1);
    } else {
      InTheGap(s, i, it);
    }
  }

  /** No point of i is covered, nor, if it has none, its min. */
  ghost predicate Untouched(s: seq<Interval>, i: Interval) {
    (forall p :: i.Contains(p) ==> !Covers(s, p)) && (i.Empty() ==> !Covers(s, i.min))
  }

  lemma ReachesNext(s: seq<Interval>, i: Interval, k: nat)
    requires Canonical(s) && k < |s| && i.min < s[k].min < i.max
    ensures !Untouched(s, i)
  {
    assert s[k].Contains(s[k].min);
    assert Covers(s, s[k].min) && i.Contains(s[k].min);
  }

  lemma StartsInside(s: seq<Interval>, i: Interval, k: nat)
    requires k < |s| && s[k].Contains(i.min)
    ensures !Untouched(s, i)
  {
    assert Covers(s, i.min);
    assert !i.Empty() ==> i.Contains(i.min);
  }

  lemma InTheGap(s: seq<Interval>, i: Interval, it: nat)
    requires Canonical(s) && it <= |s|
    requires it > 0 ==> s[it - 1].max <= i.min
    requires it < |s| ==> i.min < s[it].min && i.max <= s[it].min
    ensures Untouched(s, i)
  {
    forall k | 0 <= k < |s|
      ensures s[k].max <= i.min || (i.max <= s[k].min && i.min < s[k].min)
    {
      assert k < it - 1 ==> s[k].max < s[it - 1].min;
      assert k > it ==> s[it].max < s[k].min;
    }
  }

  /** The starting cursors of a sweep skip nothing that matters. */
  lemma CandidatesBehind(s: seq<Interval>, y: seq<Interval>, m: nat, t: nat)
    requires Canonical(s) && Canonical(y) && m < |s| && t <= |y| && y != []
    requires forall i :: 0 <= i < m ==> s[i].max <= y[0].min
    requires forall j :: 0 <= j < t ==> y[j].max <= s[m].min
    ensures Behind(y, t, s, m)
    ensures forall i :: 0 <= i < m ==> Clear(s[i], y)
  {
  }
}
