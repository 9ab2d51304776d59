/** hasUnion as Java's 32-bit int arithmetic computes it: `other.end + 1`
    and `other.start - 1` wrap around. The rest of the model uses the
    unbounded Intervals.HasUnion, which is what the adjacency test means. */
module Int32Adjacency {
  import opened Intervals

  const IntMin: int := -0x8000_0000
  const IntMax: int := 0x7fff_ffff

  predicate InInt32(x: int) {
    IntMin <= x <= IntMax
  }

  /** Java int addition and subtraction: the result reduced into the 32-bit
      range. */
  function Wrap(x: int): (r: int)
    ensures InInt32(r)
    ensures InInt32(x) ==> r == x
  {
    (x - IntMin) % 0x1_0000_0000 + IntMin
  }

  /** hasUnion with the wrap-around of its two adjacency tests. */
  predicate HasUnionAsWritten(a: Interval, b: Interval) {
    HasIntersection(a, b) || a.start == Wrap(b.end + 1) || a.end == Wrap(b.start - 1)
  }

  /** The one-point pieces at the two ends of the int range are far apart,
      yet the wrapped test calls them mergeable, and the union sweep would
      replace them by their hull, the whole int range. */
  lemma AsWrittenMergesExtremes()
    ensures HasUnionAsWritten(Interval(IntMin, IntMin), Interval(IntMax, IntMax))
    ensures !HasUnion(Interval(IntMin, IntMin), Interval(IntMax, IntMax))
    ensures var hull := Union(Interval(IntMin, IntMin), Interval(IntMax, IntMax));
            Mem(hull, 0) && !Mem(Interval(IntMin, IntMin), 0) && !Mem(Interval(IntMax, IntMax), 0)
  {
  }

  /** Away from the wrap the two tests agree: whenever neither adjacency
      computation leaves the int range. */
  lemma AsWrittenAgreesInRange(a: Interval, b: Interval)
    requires InInt32(b.end + 1) && InInt32(b.start - 1)
    ensures HasUnionAsWritten(a, b) <==> HasUnion(a, b)
  {
  }
}
