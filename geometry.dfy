/**
 * Integer rectangles on the grid: the position record of a grid item, the
 * overlap test used to reject placements, and the boundary clamp applied to
 * every candidate position at the end of a gesture.
 */
module Geometry {

  /**
   * A rectangle in cell units: top-left cell (x, y), width xspan and height
   * yspan. Nothing forces the spans to be positive: the clamp below can make
   * them zero or negative.
   */
  datatype Pos = Pos(x: int, y: int, xspan: int, yspan: int)

  function Max(a: int, b: int): int { if a >= b then a else b }

  function Min(a: int, b: int): int { if a <= b then a else b }

  /** Cell (cx, cy) lies inside p, intervals half-open on both axes. */
  predicate Covers(p: Pos, cx: int, cy: int) {
    p.x <= cx < p.x + p.xspan && p.y <= cy < p.y + p.yspan
  }

  /** Both spans are at least one cell. */
  predicate Proper(p: Pos) {
    p.xspan >= 1 && p.yspan >= 1
  }

  /**
   * The bounds the boundary checks establish: the origin is not left of or
   * above the grid, and the far edges are not right of or below it. With a
   * non-positive span the origin itself may lie past the far edge.
   */
  predicate InBounds(p: Pos, width: int, height: int) {
    0 <= p.x && 0 <= p.y && p.x + p.xspan <= width && p.y + p.yspan <= height
  }

  /** The overlap test: the half-open intervals overlap on both axes. */
  predicate IsColliding(p1: Pos, p2: Pos) {
    && p1.x < p2.x + p2.xspan
    && p1.x + p1.xspan > p2.x
    && p1.y < p2.y + p2.yspan
    && p1.y + p1.yspan > p2.y
  }

  /** The overlap test does not depend on the order of its arguments. */
  lemma CollidingSymmetric(a: Pos, b: Pos)
    ensures IsColliding(a, b) <==> IsColliding(b, a)
  {
  }

  /** Rectangles that only touch along an edge do not collide. */
  lemma EdgeAdjacentApart(a: Pos, b: Pos)
    requires a.x + a.xspan == b.x || a.y + a.yspan == b.y
    ensures !IsColliding(a, b) && !IsColliding(b, a)
  {
  }

  /** Two rectangles that share a cell collide. */
  lemma SharedCellCollides(a: Pos, b: Pos, cx: int, cy: int)
    requires Covers(a, cx, cy) && Covers(b, cx, cy)
    ensures IsColliding(a, b)
  {
  }

  /**
   * Conversely, two colliding rectangles with positive spans share a cell:
   * the one at the larger of the two left edges and the larger of the two
   * top edges. (For a rectangle with a non-positive span, which covers no
   * cell at all, the test can still report a collision.)
   */
  lemma CollidingSharesCell(a: Pos, b: Pos)
    requires Proper(a) && Proper(b)
    requires IsColliding(a, b)
    ensures exists cx, cy :: Covers(a, cx, cy) && Covers(b, cx, cy)
  {
    var cx, cy := Max(a.x, b.x), Max(a.y, b.y);
    assert Covers(a, cx, cy) && Covers(b, cx, cy);
  }

  /**
   * The boundary checks applied to a candidate: x and y are raised to 0,
   * then each span is cut to what is left of the grid after the (clamped)
   * origin. The result is within bounds. There is no final floor at 1: an origin at or past the right
   * edge leaves a span of zero or less.
   */
  function ClampToGrid(p: Pos, width: int, height: int): (r: Pos)
    ensures InBounds(r, width, height)
    ensures r.x >= p.x && (r.x == p.x || r.x == 0)
    ensures r.y >= p.y && (r.y == p.y || r.y == 0)
    ensures r.xspan <= p.xspan && (r.xspan == p.xspan || r.x + r.xspan == width)
    ensures r.yspan <= p.yspan && (r.yspan == p.yspan || r.y + r.yspan == height)
    ensures InBounds(p, width, height) ==> r == p
  {
    var x := Max(0, p.x);
    var y := Max(0, p.y);
    Pos(x, y, Min(p.xspan, width - x), Min(p.yspan, height - y))
  }

  /** A position within bounds whose spans are at least 1 lies inside the grid: its origin is a cell of the grid. */
  lemma ProperInBoundsInside(p: Pos, width: int, height: int)
    requires Proper(p) && InBounds(p, width, height)
    ensures 0 <= p.x < width && 0 <= p.y < height
  {
  }

  /** A non-positive span within bounds can leave the origin past the far edge. */
  lemma DegenerateInBoundsOutside()
    ensures InBounds(Pos(20, 0, -8, 2), 12, 12) && !Proper(Pos(20, 0, -8, 2))
  {
  }

  /** Clamping twice is clamping once. */
  lemma ClampIdempotent(p: Pos, width: int, height: int)
    ensures ClampToGrid(ClampToGrid(p, width, height), width, height) == ClampToGrid(p, width, height)
  {
  }

  /** The two overlap examples: edge-adjacent squares apart, offset by one they collide. */
  lemma OverlapBoundaryExample()
    ensures !IsColliding(Pos(0, 0, 2, 2), Pos(2, 0, 2, 2))
    ensures IsColliding(Pos(1, 0, 2, 2), Pos(0, 0, 2, 2))
    ensures forall cy :: 0 <= cy < 2 ==> Covers(Pos(1, 0, 2, 2), 1, cy) && Covers(Pos(0, 0, 2, 2), 1, cy)
  {
  }
}
