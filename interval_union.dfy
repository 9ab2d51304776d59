/** IntervalUnion: a set of integers held as its canonical sequence of
    pieces. union and intersection are linear sweeps that build a new set;
    contains, equals, toString and getPieceCount read one. */
module IntervalUnions {
  import opened Intervals
  import opened CanonicalForm
  import Rendering
  import Decimal

  /** r is the canonical form of the union of the sets a and b stand for. */
  ghost predicate IsUnion(r: seq<Interval>, a: seq<Interval>, b: seq<Interval>) {
    Canonical(r) && forall x :: Covers(r, x) <==> Covers(a, x) || Covers(b, x)
  }

  /** r is the canonical form of the intersection of the sets a and b stand for. */
  ghost predicate IsIntersection(r: seq<Interval>, a: seq<Interval>, b: seq<Interval>) {
    Canonical(r) && forall x :: Covers(r, x) <==> Covers(a, x) && Covers(b, x)
  }

  class IntervalUnion {
    var pieces: seq<Interval>

    ghost predicate Valid()
      reads this
    {
      Canonical(pieces)
    }

    /** The private default constructor: the empty set. */
    constructor Empty()
      ensures pieces == []
    {
      pieces := [];
    }

    /** The set [start-end]. create does not check start <= end; a
        malformed piece is excluded here instead. */
    constructor (start: int, end: int)
      requires start <= end
      ensures Valid()
      ensures pieces == [Interval(start, end)]
    {
      pieces := [Interval(start, end)];
    }

    /** The factory create(start, end). */
    static method Create(start: int, end: int) returns (newSet: IntervalUnion)
      requires start <= end
      ensures fresh(newSet) && newSet.Valid()
      ensures newSet.pieces == [Interval(start, end)]
    {
      newSet := new IntervalUnion(start, end);
    }

    /** Merge the two sorted piece lists by start; a candidate that overlaps
        or touches the last output piece replaces that piece with their
        hull, otherwise it is appended. Neither operand changes. */
    method Union(other: IntervalUnion) returns (newSet: IntervalUnion)
      requires Valid() && other.Valid()
      ensures fresh(newSet) && newSet.Valid()
      ensures IsUnion(newSet.pieces, pieces, other.pieces)
      ensures |newSet.pieces| <= |pieces| + |other.pieces|
      ensures pieces == [] && other.pieces == [] ==> newSet.pieces == []
    {
      newSet := new IntervalUnion.Empty();
      if |pieces| == 0 && |other.pieces| == 0 {
        return;
      }
      var a, b := pieces, other.pieces;
      var i, j := 0, 0;
      assert a[0..] == a && b[0..] == b;
      while i < |a| || j < |b|
        invariant 0 <= i <= |a| && 0 <= j <= |b|
        invariant Canonical(newSet.pieces)
        invariant |newSet.pieces| <= i + j
        // candidates arrive in non-decreasing start order, so only the last
        // output piece can ever need merging
        invariant LastStartsNoLater(newSet.pieces, a, i)
        invariant LastStartsNoLater(newSet.pieces, b, j)
        invariant UnionSoFar(newSet.pieces, a, i, b, j)
        decreases |a| - i + |b| - j
      {
        ghost var placed, i0, j0 := newSet.pieces, i, j;
        var intervalToAdd: Interval;
        if i < |a| && j < |b| {
          if a[i].start < b[j].start {
            intervalToAdd := a[i];
            i := i + 1;
          } else {
            intervalToAdd := b[j];
            j := j + 1;
          }
        } else if i < |a| {
          intervalToAdd := a[i];
          i := i + 1;
        } else {
          intervalToAdd := b[j];
          j := j + 1;
        }
        StartsIncrease(a, i0);
        StartsIncrease(b, j0);
        newSet.AddMerging(intervalToAdd);
        if i > i0 {
          TakeFirst(placed, newSet.pieces, a, i0, b, j0);
        } else {
          TakeSecond(placed, newSet.pieces, a, i0, b, j0);
        }
      }
      assert a[i..] == [] && b[j..] == [];
    }

    /** Lines 141-157 of the union sweep: place the next candidate, merging
        it into the last piece when the two overlap or touch. The candidate
        never starts before the last piece, so canonical form is kept. */
    method AddMerging(intervalToAdd: Interval)
      requires Valid() && WellFormed(intervalToAdd)
      requires pieces != [] ==> Last(pieces).start <= intervalToAdd.start
      modifies this
      ensures Valid() && Extends(pieces, old(pieces), intervalToAdd)
      ensures pieces != [] && Last(pieces).start <= intervalToAdd.start
      ensures |pieces| <= |old(pieces)| + 1
    {
      var n := |pieces|;
      if n > 0 && HasUnion(pieces[n - 1], intervalToAdd) {
        MergeLast(pieces, intervalToAdd);
        pieces := pieces[..n - 1] + [Intervals.Union(pieces[n - 1], intervalToAdd)];
      } else {
        if n > 0 {
          NotMergeableIsApart(pieces[n - 1], intervalToAdd);
        }
        AppendApart(pieces, intervalToAdd);
        pieces := pieces + [intervalToAdd];
      }
    }

    /** Walk both piece lists with two cursors, emitting the common part of
        each overlapping pair and advancing the cursor whose piece ends
        first. Neither operand changes. */
    method Intersection(other: IntervalUnion) returns (newSet: IntervalUnion)
      requires Valid() && other.Valid()
      ensures fresh(newSet) && newSet.Valid()
      ensures IsIntersection(newSet.pieces, pieces, other.pieces)
      ensures pieces == [] || other.pieces == [] ==> newSet.pieces == []
      ensures pieces != [] && other.pieces != [] ==> |newSet.pieces| <= |pieces| + |other.pieces| - 1
    {
      newSet := new IntervalUnion.Empty();
      if |pieces| == 0 || |other.pieces| == 0 {
        return;
      }
      var a, b := pieces, other.pieces;
      var i, j := 0, 0;
      while i < |a| && j < |b|
        invariant 0 <= i <= |a| && 0 <= j <= |b|
        invariant Canonical(newSet.pieces)
        invariant |newSet.pieces| <= i + j < |a| + |b|
        // whatever is still to be emitted starts past the last emitted piece
        invariant newSet.pieces != [] && i < |a| && j < |b| ==>
                    Last(newSet.pieces).end + 1 < Max(a[i].start, b[j].start)
        invariant forall x :: Covers(a, x) && Covers(b, x)
                           <==> Covers(newSet.pieces, x) || (Covers(a[i..], x) && Covers(b[j..], x))
        decreases |a| - i + |b| - j
      {
        var thisInterval := a[i];
        var otherInterval := b[j];
        if HasIntersection(thisInterval, otherInterval) {
          var intersectionInterval := Intervals.Intersection(thisInterval, otherInterval);
          CoversAppend(newSet.pieces, intersectionInterval);
          newSet.pieces := newSet.pieces + [intersectionInterval];
        } else {
          HasIntersectionMeansCommonPoint(thisInterval, otherInterval);
        }
        CoversSuffix(a, i);
        CoversSuffix(b, j);
        if thisInterval.end < otherInterval.end {
          AdvancePast(a, i, b, j);
          i := i + 1;
        } else {
          AdvancePast(b, j, a, i);
          j := j + 1;
        }
      }
    }

    /** toString: "[" + the pieces joined by "," + "]", a
        one-point piece as its number and any other as start-end. */
    method ToString() returns (s: string)
      ensures s == Rendering.Render(pieces)
    {
      s := "[";
      for i := 0 to |pieces|
        invariant s == "[" + Rendering.Join(pieces[..i]) + (if 0 < i < |pieces| then "," else "")
      {
        var temp := pieces[i];
        ghost var before := s;
        s := s + Decimal.IntToString(temp.start);
        if temp.start < temp.end {
          s := s + "-" + Decimal.IntToString(temp.end);
        }
        assert s == before + Rendering.PieceText(temp);
        Rendering.JoinStep(pieces, i);
        if i < |pieces| - 1 {
          s := s + ",";
        }
      }
      assert pieces[..|pieces|] == pieces;
      s := s + "]";
    }

    /** Structural equality: same length and the same start and end
        position by position. For canonical sets that is equality of the
        integer sets they stand for. */
    method Equals(other: IntervalUnion) returns (b: bool)
      ensures b <==> pieces == other.pieces
      ensures Valid() && other.Valid() ==> (b <==> forall x :: Covers(pieces, x) <==> Covers(other.pieces, x))
    {
      if Valid() && other.Valid() {
        SameSetIffEqual(pieces, other.pieces);
      }
      if |pieces| != |other.pieces| {
        return false;
      }
      for i := 0 to |pieces|
        invariant forall k :: 0 <= k < i ==> pieces[k] == other.pieces[k]
      {
        var thisInterval := pieces[i];
        var otherInterval := other.pieces[i];
        if thisInterval.start != otherInterval.start || thisInterval.end != otherInterval.end {
          return false;
        }
      }
      return true;
    }

    /** Membership by a linear scan over the pieces. */
    method Contains(x: int) returns (b: bool)
      ensures b == Covers(pieces, x)
    {
      for i := 0 to |pieces|
        invariant forall k :: 0 <= k < i ==> !Mem(pieces[k], x)
      {
        var temp := pieces[i];
        if x >= temp.start && x <= temp.end {
          return true;
        }
      }
      return false;
    }

    /** The number of pieces, which for a canonical set is the number of
        maximal runs of integers it holds; zero exactly for the empty set. */
    function GetPieceCount(): (n: nat)
      reads this
      ensures n == |pieces|
      ensures Valid() ==> (n == 0 <==> forall x :: !Covers(pieces, x))
    {
      assert Valid() ==> (|pieces| == 0 <==> forall x :: !Covers(pieces, x)) by {
        if Valid() {
          CoversEmpty(pieces);
        }
      }
      |pieces|
    }
  }

  /** The last output piece starts no later than the candidate at cursor i. */
  ghost predicate LastStartsNoLater(out: seq<Interval>, s: seq<Interval>, i: int) {
    out != [] && 0 <= i < |s| ==> Last(out).start <= s[i].start
  }

  /** What the output covers plus what the two cursors have still to place
      is the union of the operands. */
  ghost predicate UnionSoFar(out: seq<Interval>, a: seq<Interval>, i: int, b: seq<Interval>, j: int)
    requires 0 <= i <= |a| && 0 <= j <= |b|
  {
    forall x :: Covers(out, x) || Covers(a[i..], x) || Covers(b[j..], x) <==> Covers(a, x) || Covers(b, x)
  }

  /** r covers what s covers and also the integers of p. */
  ghost predicate Extends(r: seq<Interval>, s: seq<Interval>, p: Interval) {
    forall x :: Covers(r, x) <==> Covers(s, x) || Mem(p, x)
  }

  /** In canonical form starts strictly increase. */
  lemma StartsIncrease(s: seq<Interval>, i: int)
    requires Canonical(s) && 0 <= i
    ensures i + 1 < |s| ==> s[i].start < s[i + 1].start
  {
    if i + 1 < |s| {
      assert WellFormed(s[i]);
    }
  }

  /** Placing the candidate taken from the first cursor. */
  lemma TakeFirst(out: seq<Interval>, out': seq<Interval>, a: seq<Interval>, i: int, b: seq<Interval>, j: int)
    requires 0 <= i < |a| && 0 <= j <= |b|
    requires UnionSoFar(out, a, i, b, j) && Extends(out', out, a[i])
    ensures UnionSoFar(out', a, i + 1, b, j)
  {
    CoversSuffix(a, i);
  }

  /** Placing the candidate taken from the second cursor. */
  lemma TakeSecond(out: seq<Interval>, out': seq<Interval>, a: seq<Interval>, i: int, b: seq<Interval>, j: int)
    requires 0 <= i <= |a| && 0 <= j < |b|
    requires UnionSoFar(out, a, i, b, j) && Extends(out', out, b[j])
    ensures UnionSoFar(out', a, i, b, j + 1)
  {
    CoversSuffix(b, j);
  }

  /** Appending a piece that starts at least two past the last one keeps
      canonical form. */
  lemma AppendApart(s: seq<Interval>, p: Interval)
    requires Canonical(s) && WellFormed(p)
    requires s != [] ==> Last(s).end + 1 < p.start
    ensures Canonical(s + [p]) && Extends(s + [p], s, p)
  {
    CoversAppend(s, p);
    var r := s + [p];
    forall k | 0 <= k < |r| - 1 ensures r[k].end + 1 < r[k + 1].start {
      assert r[k] == s[k];
    }
  }

  /** Replacing the last piece by its hull with a later-starting mergeable
      candidate keeps canonical form and adds exactly the candidate's
      integers. */
  lemma MergeLast(s: seq<Interval>, p: Interval)
    requires Canonical(s) && |s| > 0 && WellFormed(p)
    requires Last(s).start <= p.start && HasUnion(Last(s), p)
    ensures Canonical(s[..|s| - 1] + [Intervals.Union(Last(s), p)])
    ensures Last(s[..|s| - 1] + [Intervals.Union(Last(s), p)]).start == Last(s).start
    ensures Extends(s[..|s| - 1] + [Intervals.Union(Last(s), p)], s, p)
  {
    var n := |s|;
    var init := s[..n - 1];
    var hull := Intervals.Union(Last(s), p);
    var r := init + [hull];
    HasUnionMeansHullIsUnion(Last(s), p);
    CoversAppend(init, hull);
    CoversAppend(init, Last(s));
    assert init + [Last(s)] == s;
    forall k | 0 <= k < |r| - 1 ensures r[k].end + 1 < r[k + 1].start {
      assert r[k] == s[k];
      if k < n - 2 {
        assert r[k + 1] == s[k + 1];
      }
    }
  }

  /** When the piece at cursor i ends before the one at cursor j, no later
      piece of b meets it, so the pair (i, j) was its last chance: what a[i..]
      and b[j..] still share is the common part of a[i] and b[j] plus what
      a[i+1..] and b[j..] share. Also the next candidate pair starts past
      whatever a[i] and b[j] emitted. */
  lemma AdvancePast(a: seq<Interval>, i: int, b: seq<Interval>, j: int)
    requires Canonical(a) && Canonical(b)
    requires 0 <= i < |a| && 0 <= j < |b|
    requires a[i].end <= b[j].end
    ensures forall x :: Covers(a[i..], x) && Covers(b[j..], x)
                    <==> (Mem(a[i], x) && Mem(b[j], x)) || (Covers(a[i + 1..], x) && Covers(b[j..], x))
    ensures i + 1 < |a| ==> a[i].end + 1 < a[i + 1].start
    ensures i + 1 < |a| ==> a[i].start < a[i + 1].start
  {
    CoversSuffix(a, i);
    CoversSuffix(b, j);
    forall x | Mem(a[i], x) && Covers(b[j + 1..], x) ensures false {
      CoversAboveSuffix(b, j, x);
    }
    if i + 1 < |a| {
      assert WellFormed(a[i]);
    }
  }

  // Set laws. union and intersection are specified by IsUnion and
  // IsIntersection; since canonical form is unique, each law below is a
  // statement about the only result either method can return.

  lemma UnionCommutes(r: seq<Interval>, r': seq<Interval>, a: seq<Interval>, b: seq<Interval>)
    requires IsUnion(r, a, b) && IsUnion(r', b, a)
    ensures r == r'
  {
    CanonicalUnique(r, r');
  }

  lemma IntersectionCommutes(r: seq<Interval>, r': seq<Interval>, a: seq<Interval>, b: seq<Interval>)
    requires IsIntersection(r, a, b) && IsIntersection(r', b, a)
    ensures r == r'
  {
    CanonicalUnique(r, r');
  }

  lemma UnionIdempotent(r: seq<Interval>, a: seq<Interval>)
    requires Canonical(a) && IsUnion(r, a, a)
    ensures r == a
  {
    CanonicalUnique(r, a);
  }

  lemma IntersectionIdempotent(r: seq<Interval>, a: seq<Interval>)
    requires Canonical(a) && IsIntersection(r, a, a)
    ensures r == a
  {
    CanonicalUnique(r, a);
  }

  /** The empty set is the identity of union; in particular the union of two
      empty sets is empty. */
  lemma UnionWithEmpty(r: seq<Interval>, a: seq<Interval>)
    requires Canonical(a) && IsUnion(r, a, [])
    ensures r == a
  {
    CanonicalUnique(r, a);
  }

  /** The empty set absorbs intersection. */
  lemma IntersectionWithEmpty(r: seq<Interval>, a: seq<Interval>)
    requires IsIntersection(r, a, [])
    ensures r == []
  {
    CoversEmpty(r);
  }

  /** [5,15] with [7,26]: the union is [5-26], the intersection [7-15]. */
  lemma OverlappingScenario(u: seq<Interval>, n: seq<Interval>)
    requires IsUnion(u, [Interval(5, 15)], [Interval(7, 26)])
    requires IsIntersection(n, [Interval(5, 15)], [Interval(7, 26)])
    ensures u == [Interval(5, 26)] && n == [Interval(7, 15)]
  {
    CoversLiteral(Interval(5, 15), Interval(7, 26));
    CoversLiteral(Interval(7, 26), Interval(5, 15));
    CoversLiteral(Interval(5, 26), Interval(5, 26));
    CoversLiteral(Interval(7, 15), Interval(7, 15));
    CanonicalUnique(u, [Interval(5, 26)]);
    CanonicalUnique(n, [Interval(7, 15)]);
  }

  /** [1,5] with [6,10]: adjacent pieces merge into [1-10]. */
  lemma AdjacentPiecesMerge(r: seq<Interval>)
    requires IsUnion(r, [Interval(1, 5)], [Interval(6, 10)])
    ensures r == [Interval(1, 10)]
  {
    CoversLiteral(Interval(1, 5), Interval(1, 5));
    CoversLiteral(Interval(6, 10), Interval(6, 10));
    CoversLiteral(Interval(1, 10), Interval(1, 10));
    CanonicalUnique(r, [Interval(1, 10)]);
  }

  /** [1,5] with [7,10]: a gap of one integer keeps two pieces. */
  lemma GapKeepsPiecesApart(r: seq<Interval>)
    requires IsUnion(r, [Interval(1, 5)], [Interval(7, 10)])
    ensures r == [Interval(1, 5), Interval(7, 10)]
  {
    CoversLiteral(Interval(1, 5), Interval(7, 10));
    CoversLiteral(Interval(7, 10), Interval(7, 10));
    CanonicalUnique(r, [Interval(1, 5), Interval(7, 10)]);
  }

  /** {[3,10],[14,19]} with {[2,8],[15,20]} intersect to {[3,8],[15,19]}. */
  lemma TwoPieceIntersection(r: seq<Interval>)
    requires IsIntersection(r, [Interval(3, 10), Interval(14, 19)], [Interval(2, 8), Interval(15, 20)])
    ensures r == [Interval(3, 8), Interval(15, 19)]
  {
    CoversLiteral(Interval(3, 10), Interval(14, 19));
    CoversLiteral(Interval(2, 8), Interval(15, 20));
    CoversLiteral(Interval(3, 8), Interval(15, 19));
    CanonicalUnique(r, [Interval(3, 8), Interval(15, 19)]);
  }
}
