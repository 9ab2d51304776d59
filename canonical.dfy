/** The canonical form of an IntervalUnion: pieces that each hold an integer,
    sorted by start, with a gap of at least one integer between neighbours.
    The set a piece sequence stands for is given by Covers; in canonical form
    that set determines the sequence. */
module CanonicalForm {
  import opened Intervals

  /** The representation invariant both sweeps must keep. */
  ghost predicate Canonical(s: seq<Interval>) {
    && (forall k :: 0 <= k < |s| ==> WellFormed(s[k]))
    && (forall k :: 0 <= k < |s| - 1 ==> s[k].end + 1 < s[k + 1].start)
  }

  /** The set of integers a piece sequence represents. */
  ghost predicate Covers(s: seq<Interval>, x: int) {
    exists k :: 0 <= k < |s| && Mem(s[k], x)
  }

  function Last(s: seq<Interval>): Interval
    requires |s| > 0
  {
    s[|s| - 1]
  }

  /** Covers, unfolded at the front of a suffix. */
  lemma CoversSuffix(s: seq<Interval>, i: int)
    requires 0 <= i < |s|
    ensures forall x :: Covers(s[i..], x) <==> Mem(s[i], x) || Covers(s[i + 1..], x)
  {
    forall x ensures Covers(s[i..], x) <==> Mem(s[i], x) || Covers(s[i + 1..], x) {
      if Covers(s[i..], x) {
        var k :| 0 <= k < |s[i..]| && Mem(s[i..][k], x);
        if k > 0 {
          assert s[i + 1..][k - 1] == s[i..][k];
        }
      }
      if Mem(s[i], x) {
        assert s[i..][0] == s[i];
      }
      if Covers(s[i + 1..], x) {
        var k :| 0 <= k < |s[i + 1..]| && Mem(s[i + 1..][k], x);
        assert s[i..][k + 1] == s[i + 1..][k];
      }
    }
  }

  /** Covers of a sequence with one more piece at the end. */
  lemma CoversAppend(s: seq<Interval>, p: Interval)
    ensures forall x :: Covers(s + [p], x) <==> Covers(s, x) || Mem(p, x)
  {
    forall x ensures Covers(s + [p], x) <==> Covers(s, x) || Mem(p, x) {
      if Covers(s + [p], x) {
        var k :| 0 <= k < |s + [p]| && Mem((s + [p])[k], x);
        if k < |s| {
          assert (s + [p])[k] == s[k];
        }
      }
      if Covers(s, x) {
        var k :| 0 <= k < |s| && Mem(s[k], x);
        assert (s + [p])[k] == s[k];
      }
      if Mem(p, x) {
        assert (s + [p])[|s|] == p;
      }
    }
  }

  /** Covers of a one-piece and a two-piece sequence. */
  lemma CoversLiteral(p: Interval, q: Interval)
    ensures forall x :: Covers([p], x) <==> Mem(p, x)
    ensures forall x :: Covers([p, q], x) <==> Mem(p, x) || Mem(q, x)
  {
    CoversAppend([], p);
    CoversAppend([p], q);
    assert [] + [p] == [p] && [p] + [q] == [p, q];
  }

  /** The empty sequence, and in canonical form only it, represents the
      empty set. */
  lemma CoversEmpty(s: seq<Interval>)
    requires Canonical(s)
    ensures (forall x :: !Covers(s, x)) <==> s == []
  {
    if s != [] {
      assert WellFormed(s[0]) && Mem(s[0], s[0].start);
      assert Covers(s, s[0].start);
    }
  }

  /** Neighbouring gaps add up: in canonical form any earlier piece ends at
      least two before any later piece starts. */
  lemma {:induction false} Separated(s: seq<Interval>, i: int, j: int)
    requires Canonical(s) && 0 <= i < j < |s|
    ensures s[i].end + 1 < s[j].start
    decreases j - i
  {
    if j > i + 1 {
      Separated(s, i, j - 1);
      assert WellFormed(s[j - 1]);
    }
  }

  /** A canonical suffix is canonical. */
  lemma CanonicalSuffix(s: seq<Interval>, i: int)
    requires Canonical(s) && 0 <= i <= |s|
    ensures Canonical(s[i..])
  {
    var t := s[i..];
    forall k | 0 <= k < |t| - 1 ensures t[k].end + 1 < t[k + 1].start {
      assert t[k] == s[i + k] && t[k + 1] == s[i + k + 1];
    }
  }

  /** Everything a canonical sequence covers past its first j + 1 pieces lies
      at least two above the end of piece j. */
  lemma CoversAboveSuffix(s: seq<Interval>, j: int, x: int)
    requires Canonical(s) && 0 <= j < |s|
    requires Covers(s[j + 1..], x)
    ensures s[j].end + 1 < x
  {
    var k :| 0 <= k < |s[j + 1..]| && Mem(s[j + 1..][k], x);
    Separated(s, j, j + 1 + k);
  }

  /** Nothing a canonical sequence covers lies below its first start. */
  lemma CoversAtLeastFirst(s: seq<Interval>, x: int)
    requires Canonical(s) && Covers(s, x)
    ensures s[0].start <= x
  {
    var k :| 0 <= k < |s| && Mem(s[k], x);
    if k > 0 {
      Separated(s, 0, k);
    }
  }

  /** Each piece of a canonical sequence is a maximal run of covered
      integers: all of it is covered and its two outside neighbours are not.
      So the number of pieces is the number of maximal runs. */
  lemma PieceIsMaximalRun(s: seq<Interval>, k: int)
    requires Canonical(s) && 0 <= k < |s|
    ensures forall x :: s[k].start <= x <= s[k].end ==> Covers(s, x)
    ensures !Covers(s, s[k].start - 1) && !Covers(s, s[k].end + 1)
  {
    forall x | s[k].start <= x <= s[k].end ensures Covers(s, x) {
      assert Mem(s[k], x);
    }
    forall m | 0 <= m < |s| ensures !Mem(s[m], s[k].start - 1) && !Mem(s[m], s[k].end + 1) {
      if m < k {
        Separated(s, m, k);
      } else if m > k {
        Separated(s, k, m);
      }
    }
  }

  /** Covers of the first piece's tail: exactly what the whole covers above
      the first piece's end. */
  lemma CoversTail(s: seq<Interval>)
    requires Canonical(s) && |s| > 0
    ensures forall x :: Covers(s[1..], x) <==> Covers(s, x) && s[0].end < x
  {
    CoversSuffix(s, 0);
    assert s[0..] == s;
    forall x | Covers(s[1..], x) ensures s[0].end < x {
      CoversAboveSuffix(s, 0, x);
    }
  }

  /** Two non-empty canonical sequences covering the same integers start
      with the same piece. */
  lemma FirstPiecesAgree(s: seq<Interval>, t: seq<Interval>)
    requires Canonical(s) && Canonical(t) && |s| > 0 && |t| > 0
    requires forall x :: Covers(s, x) <==> Covers(t, x)
    ensures s[0] == t[0]
  {
    var a, b := s[0], t[0];
    assert Mem(a, a.start) && Mem(b, b.start);
    CoversAtLeastFirst(s, b.start);
    CoversAtLeastFirst(t, a.start);
    PieceIsMaximalRun(s, 0);
    PieceIsMaximalRun(t, 0);
  }

  /** The canonical form of a set is unique: two canonical sequences that
      cover the same integers are the same sequence. */
  lemma {:induction false} CanonicalUnique(s: seq<Interval>, t: seq<Interval>)
    requires Canonical(s) && Canonical(t)
    requires forall x :: Covers(s, x) <==> Covers(t, x)
    ensures s == t
    decreases |s|
  {
    CoversEmpty(s);
    CoversEmpty(t);
    if s != [] && t != [] {
      FirstPiecesAgree(s, t);
      CoversTail(s);
      CoversTail(t);
      CanonicalSuffix(s, 1);
      CanonicalSuffix(t, 1);
      CanonicalUnique(s[1..], t[1..]);
      assert s == [s[0]] + s[1..] && t == [t[0]] + t[1..];
    }
  }

  /** Positionwise equality of canonical sequences is equality of the sets
      they represent. */
  lemma SameSetIffEqual(s: seq<Interval>, t: seq<Interval>)
    requires Canonical(s) && Canonical(t)
    ensures s == t <==> forall x :: Covers(s, x) <==> Covers(t, x)
  {
    if forall x :: Covers(s, x) <==> Covers(t, x) {
      CanonicalUnique(s, t);
    }
  }
}
