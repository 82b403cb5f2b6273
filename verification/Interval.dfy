/** Half-open intervals [min, max) over the integers (base/interval.h).
    An interval is empty when min >= max; there are many empty intervals and all of
    them are `Equals`. */
module Intervals {

  datatype Interval = Interval(min: int, max: int) {

    predicate Empty() { min >= max }

    predicate Contains(t: int) { min <= t && max > t }

    /** `Contains(const Interval&)`: false whenever either side is empty. */
    predicate Includes(i: Interval) {
      !Empty() && !i.Empty() && min <= i.min && max >= i.max
    }

    predicate Intersects(i: Interval) {
      !Empty() && !i.Empty() && min < i.max && max > i.min
    }

    predicate Equals(i: Interval) {
      if Empty() && i.Empty() then true
      else if Empty() != i.Empty() then false
      else min == i.min && max == i.max
    }

    /** `Intersects(i, out)` when the two intervals do intersect. */
    function Overlap(i: Interval): (r: Interval)
      requires Intersects(i)
      ensures !r.Empty()
      ensures forall p :: r.Contains(p) <==> Contains(p) && i.Contains(p)
    {
      Interval(if min >= i.min then min else i.min, if max <= i.max then max else i.max)
    }

    /** The two-sided difference: `lo` and `hi` are disjoint, ordered, and together
        hold exactly the points of `this` outside `i`. */
    method Difference(i: Interval) returns (overlap: bool, lo: Interval, hi: Interval)
      ensures overlap <==> Intersects(i)
      ensures forall p :: lo.Contains(p) || hi.Contains(p) <==> Contains(p) && !i.Contains(p)
      ensures !lo.Empty() && !hi.Empty() ==> lo.max < hi.min
      ensures !hi.Empty() ==> overlap && hi == Interval(i.max, max)
      ensures !lo.Empty() && overlap ==> lo == Interval(min, i.min)
      ensures !overlap ==> hi.Empty() && lo.Equals(this)
    {
      lo, hi := Interval(0, 0), Interval(0, 0);
      if Empty() {
        return false, lo, hi;
      }
      if i.Empty() {
        lo := this;
        return false, lo, hi;
      }
      if min < i.max && min >= i.min && max > i.max {
        hi := Interval(i.max, max);
        return true, lo, hi;
      }
      if max > i.min && max <= i.max && min < i.min {
        lo := Interval(min, i.min);
        return true, lo, hi;
      }
      if min < i.min && max > i.max {
        lo := Interval(min, i.min);
        hi := Interval(i.max, max);
        SplitPoints(this, i, lo, hi);
        return true, lo, hi;
      }
      if min >= i.min && max <= i.max {
        return true, lo, hi;
      }
      lo := this;
      return false, lo, hi;
    }
  }

  ghost predicate Within(a: Interval, b: Interval) {
    forall p :: a.Contains(p) ==> b.Contains(p)
  }

  lemma SplitPoints(a: Interval, i: Interval, lo: Interval, hi: Interval)
    requires a.min < i.min < i.max < a.max
    requires lo == Interval(a.min, i.min) && hi == Interval(i.max, a.max)
    ensures forall p :: lo.Contains(p) || hi.Contains(p) <==> a.Contains(p) && !i.Contains(p)
  {
  }

  /** Two intervals are `Equals` exactly when they hold the same points. */
  lemma EqualsIffSamePoints(a: Interval, b: Interval)
    ensures a.Equals(b) <==> forall p :: a.Contains(p) <==> b.Contains(p)
  {
    if forall p :: a.Contains(p) <==> b.Contains(p) {
      assert a.Contains(a.min) <==> b.Contains(a.min);
      assert a.Contains(b.min) <==> b.Contains(b.min);
      assert a.Contains(a.max - 1) <==> b.Contains(a.max - 1);
      assert a.Contains(b.max - 1) <==> b.Contains(b.max - 1);
    }
  }

  /** `Intersects` and `Includes` say what the points say, except that nothing
      includes the empty interval. */
  lemma IntersectsIncludesByPoints(a: Interval, b: Interval)
    ensures a.Intersects(b) <==> exists p :: a.Contains(p) && b.Contains(p)
    ensures a.Includes(b) <==> !b.Empty() && forall p :: b.Contains(p) ==> a.Contains(p)
  {
    var m := if a.min >= b.min then a.min else b.min;
    if a.Intersects(b) {
      assert a.Contains(m) && b.Contains(m);
    }
    if !b.Empty() && forall p :: b.Contains(p) ==> a.Contains(p) {
      assert b.Contains(b.min) && b.Contains(b.max - 1);
    }
  }

  /** The mutable face of `Interval`: the two operations that rewrite min and max. */
  class IntervalCell {
    var value: Interval

    constructor (i: Interval)
      ensures value == i
    {
      value := i;
    }

    method IntersectWith(i: Interval) returns (modified: bool)
      modifies this
      ensures forall p :: value.Contains(p) <==> old(value).Contains(p) && i.Contains(p)
      ensures modified <==> value != old(value)
    {
      if value.Empty() {
        return false;
      }
      modified := false;
      if i.min > value.min {
        value := value.(min := i.min);
        modified := true;
      }
      if i.max < value.max {
        value := value.(max := i.max);
        modified := true;
      }
    }

    /** The result holds both intervals and lies inside every interval that does. */
    method SpanningUnion(i: Interval) returns (modified: bool)
      modifies this
      ensures Within(old(value), value) && Within(i, value)
      ensures forall j: Interval :: Within(old(value), j) && Within(i, j) ==> Within(value, j)
      ensures modified <==> value != old(value)
    {
      if i.Empty() {
        return false;
      }
      assert i.Contains(i.min) && i.Contains(i.max - 1);
      if value.Empty() {
        modified := true;
        value := i;
        return;
      }
      assert value.Contains(value.min) && value.Contains(value.max - 1);
      modified := false;
      if i.min < value.min {
        value := value.(min := i.min);
        modified := true;
      }
      if i.max > value.max {
        value := value.(max := i.max);
        modified := true;
      }
    }
  }
}
