/**
 * Geometry of on-screen controls, the cached element record and the five
 * locator strategies (locator_helpers.py).
 */
module Locators {
  import opened Wrappers

  function Abs(x: int): nat {
    if x < 0 then -x else x
  }

  const DefaultHorizontalTolerance: int := 5
  const DefaultVerticalTolerance: int := 8
  const DefaultGapTolerance: int := 25

  /**
   * A screen rectangle in integer pixels. The source precomputes the derived
   * edges and centres once in a frozen record; as a Dafny value the derived
   * members below are equally fixed by the four stored integers.
   */
  datatype Position = Position(left: int, top: int, width: int, height: int) {

    function Right(): int {
      left + width
    }

    function Bottom(): int {
      top + height
    }

    /** `left + width // 2`: Dafny's `/` by the positive divisor 2 is Python's floor division. */
    function CenterX(): int {
      left + width / 2
    }

    function CenterY(): int {
      top + height / 2
    }

    /** Same row: the vertical centres differ by at most `tolerance`. */
    predicate IsHorizontallyAlignedWith(other: Position, tolerance: int) {
      Abs(CenterY() - other.CenterY()) <= tolerance
    }

    /** Same column: the horizontal centres differ by at most `tolerance`. */
    predicate IsVerticallyAlignedWith(other: Position, tolerance: int) {
      Abs(CenterX() - other.CenterX()) <= tolerance
    }

    predicate IsRightOf(other: Position, gapTolerance: int) {
      var distance := left - other.Right();
      distance >= 0 && distance <= gapTolerance
    }

    predicate IsLeftOf(other: Position, gapTolerance: int) {
      var distance := other.left - Right();
      distance >= 0 && distance <= gapTolerance
    }

    predicate IsBelow(other: Position, gapTolerance: int) {
      var distance := top - other.Bottom();
      distance >= 0 && distance <= gapTolerance
    }

    predicate IsAbove(other: Position, gapTolerance: int) {
      var distance := other.top - Bottom();
      distance >= 0 && distance <= gapTolerance
    }

    /** Squared Euclidean distance between the two centres. */
    function DistanceSquaredTo(other: Position): (d: int)
      ensures d >= 0
      ensures d == 0 <==> CenterX() == other.CenterX() && CenterY() == other.CenterY()
    {
      var dx := CenterX() - other.CenterX();
      var dy := CenterY() - other.CenterY();
      SquareFacts(dx);
      SquareFacts(dy);
      dx * dx + dy * dy
    }
  }

  lemma SquareFacts(x: int)
    ensures x * x >= 0
    ensures x * x == 0 <==> x == 0
  {
    if x < 0 {
      assert x * x == (-x) * (-x);
    }
  }

  /** The centres are the floor of the midpoint, also for negative sizes. */
  lemma CentersAreFloorMidpoints(p: Position)
    ensures 2 * (p.CenterX() - p.left) <= p.width < 2 * (p.CenterX() - p.left) + 2
    ensures 2 * (p.CenterY() - p.top) <= p.height < 2 * (p.CenterY() - p.top) + 2
  {
  }

  lemma AlignmentIsSymmetric(a: Position, b: Position, tolerance: int)
    ensures a.IsHorizontallyAlignedWith(b, tolerance) <==> b.IsHorizontallyAlignedWith(a, tolerance)
    ensures a.IsVerticallyAlignedWith(b, tolerance) <==> b.IsVerticallyAlignedWith(a, tolerance)
  {
  }

  /** `a` is right of `b` exactly when `b` is left of `a`; likewise below and above. */
  lemma AdjacencyIsDual(a: Position, b: Position, gap: int)
    ensures a.IsRightOf(b, gap) <==> b.IsLeftOf(a, gap)
    ensures a.IsBelow(b, gap) <==> b.IsAbove(a, gap)
  {
  }

  /** With the default tolerances, alignment and adjacency in plain arithmetic. */
  lemma DefaultPredicates(a: Position, b: Position)
    ensures a.IsHorizontallyAlignedWith(b, DefaultHorizontalTolerance) <==> -5 <= a.CenterY() - b.CenterY() <= 5
    ensures a.IsVerticallyAlignedWith(b, DefaultVerticalTolerance) <==> -8 <= a.CenterX() - b.CenterX() <= 8
    ensures a.IsRightOf(b, DefaultGapTolerance) <==> 0 <= a.left - b.Right() <= 25
    ensures a.IsBelow(b, DefaultGapTolerance) <==> 0 <= a.top - b.Bottom() <= 25
  {
  }

  lemma DistanceIsSymmetric(a: Position, b: Position)
    ensures a.DistanceSquaredTo(b) == b.DistanceSquaredTo(a)
    ensures a.DistanceSquaredTo(a) == 0
  {
  }

  /**
   * What the scan records about one control: its id, its type tag, the
   * stripped text, tooltip and name (absent when the read failed), the
   * `Changeable` flag and its position.
   */
  datatype ElementInfo = ElementInfo(
    id: string,
    kind: string,
    text: Option<string>,
    tooltip: Option<string>,
    position: Position,
    name: Option<string>,
    changeable: Option<bool>)

  /** The closed set of locator strategies the parser produces and the resolver runs. */
  datatype Strategy =
    | Content(value: string)
    | HLabel(labelText: string)
    | VLabel(labelText: string)
    | HLabelVLabel(hLabel: string, vLabel: string)
    | HLabelHLabel(leftLabel: string, rightLabel: string)
}
