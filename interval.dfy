/** The closed integer interval [start, end] that IntervalUnion keeps as its
    pieces, and the four combinators the union and intersection sweeps use. */
module Intervals {

  datatype Interval = Interval(start: int, end: int)

  /** A piece is well formed when it holds at least one integer. */
  predicate WellFormed(a: Interval) {
    a.start <= a.end
  }

  /** The integers a closed interval holds. */
  predicate Mem(a: Interval, x: int) {
    a.start <= x <= a.end
  }

  function Max(x: int, y: int): int { if x < y then y else x }

  function Min(x: int, y: int): int { if x < y then x else y }

  /** The two intervals share an integer: the later start is no later than
      the earlier end. That holds exactly when both are well formed and each
      starts no later than the other ends. */
  function HasIntersection(a: Interval, b: Interval): (r: bool)
    ensures r <==> WellFormed(a) && WellFormed(b) && a.start <= b.end && b.start <= a.end
  {
    Max(a.start, b.start) <= Min(a.end, b.end)
  }

  /** The common part of two intervals. */
  function Intersection(a: Interval, b: Interval): (r: Interval)
    ensures forall x :: Mem(r, x) <==> Mem(a, x) && Mem(b, x)
  {
    Interval(Max(a.start, b.start), Min(a.end, b.end))
  }

  /** The two intervals overlap or touch, so their hull is their union. For
      well-formed pieces that is: neither ends more than one before the other
      starts. */
  function HasUnion(a: Interval, b: Interval): (r: bool)
    ensures WellFormed(a) && WellFormed(b) ==> (r <==> a.end + 1 >= b.start && b.end + 1 >= a.start)
  {
    HasIntersection(a, b) || a.start == b.end + 1 || a.end == b.start - 1
  }

  /** The smallest interval holding both. */
  function Union(a: Interval, b: Interval): (r: Interval)
    ensures r.start <= a.start && r.start <= b.start
    ensures a.end <= r.end && b.end <= r.end
    ensures r.start == a.start || r.start == b.start
    ensures r.end == a.end || r.end == b.end
  {
    Interval(Min(a.start, b.start), Max(a.end, b.end))
  }

  /** hasIntersection holds exactly when some integer lies in both intervals. */
  lemma HasIntersectionMeansCommonPoint(a: Interval, b: Interval)
    ensures HasIntersection(a, b) <==> exists x :: Mem(a, x) && Mem(b, x)
  {
    if HasIntersection(a, b) {
      assert Mem(a, Max(a.start, b.start)) && Mem(b, Max(a.start, b.start));
    }
  }

  /** For well-formed pieces, hasUnion holds exactly when the hull computed by
      union holds the integers of the two pieces and nothing else. */
  lemma HasUnionMeansHullIsUnion(a: Interval, b: Interval)
    requires WellFormed(a) && WellFormed(b)
    ensures HasUnion(a, b) <==> forall x :: Mem(Union(a, b), x) <==> Mem(a, x) || Mem(b, x)
  {
    if !HasUnion(a, b) {
      // the integer just after the lower piece is in the hull and in neither piece
      var gap := if a.start <= b.start then a.end + 1 else b.end + 1;
      assert Mem(Union(a, b), gap) && !Mem(a, gap) && !Mem(b, gap);
    }
  }

  /** When a piece that does not start before `a` cannot be merged with it,
      it starts at least two past a's end: the gap the sweep relies on. */
  lemma NotMergeableIsApart(a: Interval, b: Interval)
    requires WellFormed(a) && WellFormed(b) && a.start <= b.start
    ensures !HasUnion(a, b) <==> a.end + 1 < b.start
  {
  }
}
