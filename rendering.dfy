/** The text toString produces for a piece sequence, and a reader that
    takes it back apart: for well-formed pieces the reader recovers the
    sequence, so the rendering is injective. */
module Rendering {
  import opened Intervals
  import opened Wrappers
  import opened Decimal

  /** One piece: start-end when start is strictly below end, otherwise its
      start alone. */
  function PieceText(p: Interval): string {
    if p.start < p.end then IntToString(p.start) + "-" + IntToString(p.end) else IntToString(p.start)
  }

  /** The pieces' texts separated by commas. */
  function Join(s: seq<Interval>): string {
    if |s| == 0 then ""
    else if |s| == 1 then PieceText(s[0])
    else Join(s[..|s| - 1]) + "," + PieceText(s[|s| - 1])
  }

  function Render(s: seq<Interval>): string {
    "[" + Join(s) + "]"
  }

  /** Join grows by one comma and one piece at a time. */
  lemma JoinStep(s: seq<Interval>, i: int)
    requires 0 <= i < |s|
    ensures "[" + Join(s[..i]) + (if 0 < i then "," else "") + PieceText(s[i]) == "[" + Join(s[..i + 1])
  {
    assert s[..i + 1][..i] == s[..i];
  }

  /** Join read from the front: the first piece, then a comma and the rest. */
  lemma {:induction false} JoinFront(s: seq<Interval>)
    requires |s| >= 2
    ensures Join(s) == PieceText(s[0]) + "," + Join(s[1..])
    decreases |s|
  {
    var n := |s|;
    assert s[1..][..n - 2] == s[..n - 1][1..];
    if n > 2 {
      JoinFront(s[..n - 1]);
    }
  }

  /** Reads one piece: a number, optionally followed by "-" and a second
      number. */
  function ReadPiece(s: string): (r: Option<(Interval, string)>)
    ensures r.Some? ==> |r.value.1| < |s|
  {
    match ReadInt(s)
    case None => None
    case Some((a, rest)) =>
      if |rest| > 0 && rest[0] == '-' then
        match ReadInt(rest[1..])
        case None => None
        case Some((b, rest')) => Some((Interval(a, b), rest'))
      else Some((Interval(a, a), rest))
  }

  /** Reads one or more pieces separated by commas. */
  function ReadPieces(s: string): Option<(seq<Interval>, string)>
    decreases |s|
  {
    match ReadPiece(s)
    case None => None
    case Some((p, rest)) =>
      if |rest| > 0 && rest[0] == ',' then
        match ReadPieces(rest[1..])
        case None => None
        case Some((ps, rest')) => Some(([p] + ps, rest'))
      else Some(([p], rest))
  }

  /** Reads a whole rendering back into its pieces. */
  function Parse(s: string): Option<seq<Interval>> {
    if s == "[]" then Some([])
    else if |s| > 0 && s[0] == '[' then
      match ReadPieces(s[1..])
      case Some((ps, rest)) => if rest == "]" then Some(ps) else None
      case None => None
    else None
  }

  /** Reading back one rendered well-formed piece gives the piece and what
      follows, when what follows starts with neither a digit nor "-". */
  lemma ReadPieceText(p: Interval, rest: string)
    requires WellFormed(p)
    requires rest == [] || (!IsDigit(rest[0]) && rest[0] != '-')
    ensures ReadPiece(PieceText(p) + rest) == Some((p, rest))
  {
    var a := IntToString(p.start);
    if p.start < p.end {
      var b := IntToString(p.end);
      var tail := "-" + (b + rest);
      ReadIntToString(p.start, tail);
      ReadIntToString(p.end, rest);
      AfterPrefix("-", b + rest);
      assert PieceText(p) + rest == a + tail by {
        Regroup(a, "-", b, rest);
      }
    } else {
      ReadIntToString(p.start, rest);
    }
  }

  lemma AfterPrefix(a: string, b: string)
    ensures |a + b| >= |a| && (a + b)[|a|..] == b
  {
  }

  lemma Regroup(a: string, b: string, c: string, d: string)
    ensures a + b + c + d == a + (b + (c + d))
  {
  }

  /** Reading back the joined texts of well-formed pieces gives the pieces,
      when what follows starts with none of digit, "-" and ",". */
  lemma {:induction false} ReadPiecesJoin(s: seq<Interval>, rest: string)
    requires |s| > 0 && forall k :: 0 <= k < |s| ==> WellFormed(s[k])
    requires rest == [] || (!IsDigit(rest[0]) && rest[0] != '-' && rest[0] != ',')
    ensures ReadPieces(Join(s) + rest) == Some((s, rest))
    decreases |s|
  {
    if |s| == 1 {
      ReadPieceText(s[0], rest);
      assert Join(s) == PieceText(s[0]) && s == [s[0]];
    } else {
      JoinFront(s);
      var first, others := PieceText(s[0]), Join(s[1..]);
      var tail := "," + (others + rest);
      Regroup(first, ",", others, rest);
      ReadPieceText(s[0], tail);
      ReadPiecesJoin(s[1..], rest);
      AfterPrefix(",", others + rest);
      assert [s[0]] + s[1..] == s;
    }
  }

  /** Parse undoes Render on well-formed pieces. */
  lemma ParseRender(s: seq<Interval>)
    requires forall k :: 0 <= k < |s| ==> WellFormed(s[k])
    ensures Parse(Render(s)) == Some(s)
  {
    if |s| > 0 {
      var body := Join(s);
      ReadPiecesJoin(s, "]");
      AfterPrefix("[", body + "]");
      assert Render(s) == "[" + (body + "]");
      assert |body| > 0 by {
        if |s| > 1 {
          JoinFront(s);
        }
      }
      assert |Render(s)| > 2;
    }
  }

  /** So two sequences of well-formed pieces with the same rendering are
      the same sequence. */
  lemma RenderInjective(s: seq<Interval>, t: seq<Interval>)
    requires forall k :: 0 <= k < |s| ==> WellFormed(s[k])
    requires forall k :: 0 <= k < |t| ==> WellFormed(t[k])
    requires Render(s) == Render(t)
    ensures s == t
  {
    ParseRender(s);
    ParseRender(t);
  }

  /** The one-point piece renders as its number alone. */
  lemma RenderOnePoint()
    ensures Render([Interval(5, 5)]) == "[5]"
  {
  }

  lemma RenderExample()
    ensures Render([Interval(5, 5), Interval(7, 9)]) == "[5,7-9]"
  {
  }

  lemma RenderEmpty()
    ensures Render([]) == "[]"
  {
  }
}
