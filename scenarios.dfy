/** Callers of IntervalUnion that see only the methods' contracts: because
    canonical form is unique, those contracts fix the results exactly. */
module Scenarios {
  import opened Intervals
  import opened IntervalUnions
  import Decimal

  /** [1,5] union [6,10] renders as [1-10], one piece. */
  method AdjacentUnion() returns (text: string, count: nat)
    ensures text == "[1-10]" && count == 1
  {
    var a := IntervalUnion.Create(1, 5);
    var b := IntervalUnion.Create(6, 10);
    var u := a.Union(b);
    AdjacentPiecesMerge(u.pieces);
    text := u.ToString();
    count := u.GetPieceCount();
  }

  /** [1,5] union [7,10] keeps two pieces. */
  method GapUnion() returns (text: string, count: nat, hasSix: bool)
    ensures text == "[1-5,7-10]" && count == 2 && !hasSix
  {
    var a := IntervalUnion.Create(1, 5);
    var b := IntervalUnion.Create(7, 10);
    var u := a.Union(b);
    GapKeepsPiecesApart(u.pieces);
    text := u.ToString();
    assert Decimal.IntToString(10) == "10";
    assert [Interval(1, 5), Interval(7, 10)][..1] == [Interval(1, 5)];
    count := u.GetPieceCount();
    hasSix := u.Contains(6);
    assert !Mem(Interval(1, 5), 6) && !Mem(Interval(7, 10), 6);
  }

  /** [5,15] with [7,26]: union [5-26], intersection [7-15], and the two
      orders of union compare equal. */
  method OverlapBothWays() returns (union: string, intersection: string, same: bool)
    ensures union == "[5-26]" && intersection == "[7-15]" && same
  {
    var a := IntervalUnion.Create(5, 15);
    var b := IntervalUnion.Create(7, 26);
    var u := a.Union(b);
    var u' := b.Union(a);
    var n := a.Intersection(b);
    OverlappingScenario(u.pieces, n.pieces);
    UnionCommutes(u.pieces, u'.pieces, a.pieces, b.pieces);
    union := u.ToString();
    intersection := n.ToString();
    same := u.Equals(u');
  }
}
