# IntervalUnion in Dafny

`IntervalUnion` represents a set of integers as a list of closed intervals
`[start,end]`, called pieces. The list is kept in canonical form:

- every piece holds at least one integer;
- pieces are sorted by start;
- a gap of at least one integer separates neighbours, so that
  `p[k].end + 1 < p[k+1].start`.

`union` merges two such lists in one sweep. It takes the piece with the
smaller start next, then either appends it or, when it overlaps or touches
the last output piece, replaces that piece with their hull.
`intersection` walks two cursors. It emits the common part of each
overlapping pair and advances the cursor whose piece ends first. Beside
these, `contains`, `equals`, `toString` and `getPieceCount` read a set.

The model has these modules:

- `Intervals` (`interval.dfy`): the inner class `Interval` as a datatype.
  It also holds `hasIntersection`, `intersection`, `hasUnion` and `union`
  as functions, with lemmas that tie each one to the integers it holds.
- `CanonicalForm` (`canonical.dfy`): the invariant `Canonical` and the
  meaning `Covers(s, x)`, "x is in the set s stands for". The main lemma,
  `CanonicalUnique`, says that two canonical sequences covering the same
  integers are equal.
- `IntervalUnions` (`interval_union.dfy`): the class `IntervalUnion`. Its
  one mutable field is `pieces: seq<Interval>`. The two sweeps are
  `while` loops over cursors `i` and `j`. Each allocates a new object and
  assigns its `pieces` step by step. `contains`, `equals` and `toString`
  are `for` loops with early returns where the source has them. The
  module ends with the set laws.
- `Decimal` (`decimal.dfy`): how `Integer.toString` writes an `int`,
  plus a reader `ReadInt` that is its left inverse.
- `Rendering` (`rendering.dfy`): the text `toString` produces, plus a
  parser proved to undo it, so rendering is injective.
- `Int32Adjacency` (`int32_adjacency.dfy`): `hasUnion` with Java's 32-bit
  wrap-around, for the finding below.
- `Wrappers` (`wrappers.dfy`): the `Option` type the two readers return.
- `Scenarios` (`scenarios.dfy`): callers that derive, through the methods'
  contracts alone, the results for the overlapping pair commented at
  IntervalUnion.java:24 and for the adjacency and gap cases of `hasUnion`.

`union` and `intersection` are specified by `IsUnion` and `IsIntersection`:
the result is canonical and covers exactly the union (intersection) of what
the operands cover. Canonical form is unique, so this fixes the result. As
a consequence, commutativity, idempotence and the empty-set laws are lemmas
about the only result either method can return.

Two details of the code that the model keeps:

- On equal starts, the union sweep takes `other`'s piece first (strict
  `<` at IntervalUnion.java:116). The result would be the same with the
  calling set's piece first.
- `toString` writes `start-end` only when `start < end` (line 223). It
  does not test `start != end`.

## Model

| member | source | states |
|---|---|---|
| `Intervals.HasIntersection` | IntervalUnion.java:22-26 | hasIntersection holds iff both pieces are well formed and each starts no later than the other ends |
| `Intervals.HasIntersectionMeansCommonPoint` | IntervalUnion.java:22-26 | hasIntersection holds iff some integer lies in both intervals |
| `Intervals.Intersection` | IntervalUnion.java:28-33 | the piece intersection builds holds exactly the integers common to both |
| `Intervals.HasUnionMeansHullIsUnion` | IntervalUnion.java:35-45 | for well-formed pieces, hasUnion holds iff the hull union builds holds exactly the integers of either piece; otherwise the hull holds an integer of neither |
| `Intervals.HasUnion` | IntervalUnion.java:35-39 | for well-formed pieces, hasUnion holds iff neither piece ends more than one before the other starts |
| `Intervals.Union` | IntervalUnion.java:41-45 | the hull starts no later and ends no earlier than both pieces, and starts and ends at one of theirs |
| `Intervals.NotMergeableIsApart` | IntervalUnion.java:149-157 | a later-starting piece that is not mergeable with the last one starts at least two past its end |
| `CanonicalForm.CoversEmpty` | IntervalUnion.java:53-56 | in canonical form the empty set is exactly the empty sequence |
| `CanonicalForm.Separated` | IntervalUnion.java:114-126 | in canonical form any earlier piece ends at least two before any later piece starts |
| `CanonicalForm.PieceIsMaximalRun` | IntervalUnion.java:300-303 | each canonical piece is a maximal run of covered integers, so the piece count is the number of runs |
| `CanonicalForm.CanonicalUnique` | IntervalUnion.java:246-266 | two canonical sequences that cover the same integers are equal |
| `CanonicalForm.SameSetIffEqual` | IntervalUnion.java:246-266 | for canonical sequences, positionwise equality holds iff they stand for the same set |
| `IntervalUnions.IntervalUnion.Empty` | IntervalUnion.java:53-56 | the default constructor gives the empty piece list |
| `IntervalUnions.IntervalUnion.constructor` | IntervalUnion.java:64-69 | the set holds the single piece [start,end] and is canonical |
| `IntervalUnions.IntervalUnion.Create` | IntervalUnion.java:77-81 | a fresh canonical set holding the single piece [start,end] |
| `IntervalUnions.IntervalUnion.Union` | IntervalUnion.java:89-163 | for canonical operands: a fresh canonical set whose members are those of either operand, with at most as many pieces as both together; empty when both are empty; neither operand changes |
| `IntervalUnions.IntervalUnion.AddMerging` | IntervalUnion.java:141-157 | placing a candidate that starts no earlier than the last piece keeps canonical form and adds exactly the candidate's integers, with at most one more piece |
| `IntervalUnions.IntervalUnion.Intersection` | IntervalUnion.java:171-205 | for canonical operands: a fresh canonical set whose members are those of both operands; empty when either is empty; for non-empty operands at most one piece fewer than both together; neither operand changes |
| `IntervalUnions.IntervalUnion.ToString` | IntervalUnion.java:211-238 | the text is "[" + the pieces joined by "," + "]", each piece as its start, followed by "-" and its end when start < end |
| `IntervalUnions.IntervalUnion.Equals` | IntervalUnion.java:246-266 | true iff the two piece lists agree position by position; for canonical sets, iff they hold the same integers |
| `IntervalUnions.IntervalUnion.Contains` | IntervalUnion.java:285-298 | true iff some piece has start <= x <= end |
| `IntervalUnions.IntervalUnion.GetPieceCount` | IntervalUnion.java:300-303 | the number of pieces; for a canonical set it is zero iff the set is empty |
| `IntervalUnions.MergeLast` | IntervalUnion.java:149-152 | replacing the last piece by its hull with a mergeable later-starting candidate keeps canonical form and the last start, and adds exactly the candidate's integers |
| `IntervalUnions.AppendApart` | IntervalUnion.java:154-157 | appending a piece that starts at least two past the last one keeps canonical form and adds exactly its integers |
| `IntervalUnions.TakeFirst` | IntervalUnion.java:114-132 | taking the candidate from this set's cursor loses nothing of the union still to be placed |
| `IntervalUnions.TakeSecond` | IntervalUnion.java:121-138 | taking the candidate from other's cursor loses nothing of the union still to be placed |
| `IntervalUnions.AdvancePast` | IntervalUnion.java:186-200 | when the piece at one cursor ends no later than the other's, no later piece can meet it, so advancing that cursor loses no common integer; the next pair starts past what was emitted |
| `IntervalUnions.UnionCommutes` | IntervalUnion.java:89-163 | union(A,B) and union(B,A) are the same sequence |
| `IntervalUnions.IntersectionCommutes` | IntervalUnion.java:171-205 | intersection(A,B) and intersection(B,A) are the same sequence |
| `IntervalUnions.UnionIdempotent` | IntervalUnion.java:89-163 | union(A,A) is A |
| `IntervalUnions.IntersectionIdempotent` | IntervalUnion.java:171-205 | intersection(A,A) is A |
| `IntervalUnions.UnionWithEmpty` | IntervalUnion.java:93-96 | union(A, empty) is A; in particular the union of two empty sets is empty |
| `IntervalUnions.IntersectionWithEmpty` | IntervalUnion.java:175-178 | intersection(A, empty) is empty |
| `IntervalUnions.OverlappingScenario` | IntervalUnion.java:24 | [5,15] with [7,26] gives union [5,26] and intersection [7,15] |
| `IntervalUnions.AdjacentPiecesMerge` | IntervalUnion.java:37 | [1,5] union [6,10] is the single piece [1,10] |
| `IntervalUnions.GapKeepsPiecesApart` | IntervalUnion.java:37 | [1,5] union [7,10] stays two pieces |
| `IntervalUnions.TwoPieceIntersection` | IntervalUnion.java:190-191 | {[3,10],[14,19]} intersected with {[2,8],[15,20]} is {[3,8],[15,19]} |
| `Decimal.IntToString` | IntervalUnion.java:222-225 | the text appended for an int is non-empty and starts with "-" iff the int is negative |
| `Decimal.ReadIntToString` | IntervalUnion.java:222 | reading back a rendered int gives the int and the text after it |
| `Rendering.ParseRender` | IntervalUnion.java:211-238 | parsing the rendering of well-formed pieces gives the pieces back |
| `Rendering.RenderInjective` | IntervalUnion.java:211-238 | two sequences of well-formed pieces with the same rendering are equal |
| `Rendering.RenderExample` | IntervalUnion.java:218-233 | {[5,5],[7,9]} renders as "[5,7-9]" |
| `Rendering.RenderOnePoint` | IntervalUnion.java:222-226 | {[5,5]} renders as "[5]" |
| `Rendering.RenderEmpty` | IntervalUnion.java:213-237 | the empty set renders as "[]" |
| `Scenarios.AdjacentUnion` | IntervalUnion.java:89-163 | create(1,5).union(create(6,10)) renders as "[1-10]" with one piece |
| `Scenarios.GapUnion` | IntervalUnion.java:285-303 | create(1,5).union(create(7,10)) renders as "[1-5,7-10]", has two pieces and does not contain 6 |
| `Scenarios.OverlapBothWays` | IntervalUnion.java:246-266 | [5,15] and [7,26] give union "[5-26]" and intersection "[7-15]", and the two orders of union compare equal |
| `Int32Adjacency.AsWrittenMergesExtremes` | IntervalUnion.java:37 | with 32-bit wrap-around, hasUnion calls [MIN,MIN] and [MAX,MAX] mergeable, though their hull holds 0, which is in neither |
| `Int32Adjacency.AsWrittenAgreesInRange` | IntervalUnion.java:37 | when neither adjacency computation overflows, the wrapped test agrees with the unbounded one |

## Left out

- `hashCode` (IntervalUnion.java:268-283) is not modelled. It applies `java.util.ArrayList.hashCode`, a library formula with 32-bit wrap-around, to the flattened (start, end) list. "Equal sets hash alike" needs nothing beyond the hash being a function of the piece list.
- `getAuthorName` and `getRyersonID` (IntervalUnion.java:305-313) return constant strings and carry no logic.
- `equals(Object)` casts its argument (line 248) and throws on a foreign type. The model's `Equals` takes an `IntervalUnion` only.
- 32-bit `int` arithmetic: pieces hold unbounded integers throughout. The one place where the wrap changes behaviour is listed under Findings.
- `IntervalUnions.IntervalUnion.constructor` and `Create` require `start <= end`. The source accepts a malformed piece without a check. Such a piece would break canonical form, and the source does not check it.
- `Union` and `Intersection` require canonical operands. With the constructors' `start <= end` requirement from the line above, every way to build a set yields one.
- `Union` and `Intersection` copy the operands' piece lists into locals before the sweep. The source reads `this.intervalArray` and `other.intervalArray` directly. This is the same thing, because neither list changes during the sweep.
- Interval objects are values here. The source puts the operands' own `Interval` objects into the result list. Those objects are never mutated after construction, so the sharing cannot be observed.
- `Intervals.Union`: its own contract states only that the hull spans both pieces and starts and ends at one of theirs. That it holds exactly the pieces' integers when they are mergeable is `Intervals.HasUnionMeansHullIsUnion`.

## Findings

| source | as written | input that shows it | evidently intended | confidence | as-written member | corrected member |
|---|---|---|---|---|---|---|
| IntervalUnion.java:37 | `this.start == other.end + 1` on 32-bit `int` wraps when `other.end` is `Integer.MAX_VALUE` | `create(MIN_VALUE, MIN_VALUE).union(create(MAX_VALUE, MAX_VALUE))` merges into the single piece [MIN_VALUE, MAX_VALUE], so it wrongly contains 0 | adjacency tested without overflow, so the two pieces stay apart | high, not executed | `Int32Adjacency.AsWrittenMergesExtremes` | `Intervals.HasUnionMeansHullIsUnion` |
