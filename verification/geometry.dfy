/** The integer geometry of the form: points and rectangles in canvas pixels,
    the rectangle spanned by a drag, grid snapping and angle normalisation.
    Integers are unbounded here; the 32-bit range of `System.Drawing` is not
    modelled. */
module Geometry {

  /** `System.Drawing.Point`. */
  datatype Point = Point(x: int, y: int)

  /** `System.Drawing.Rectangle`: a top-left corner plus a width and a height. */
  datatype Rect = Rect(x: int, y: int, width: int, height: int) {
    function Left(): int { x }
    function Top(): int { y }
    function Right(): int { x + width }
    function Bottom(): int { y + height }
    function TopLeft(): Point { Point(Left(), Top()) }
    function BottomRight(): Point { Point(Right(), Bottom()) }
  }

  function Min(a: int, b: int): int { if a <= b then a else b }

  function Max(a: int, b: int): int { if a <= b then b else a }

  function Abs(a: int): nat { if a < 0 then -a else a }

  // ---------------------------------------------------------------------------
  // The rectangle spanned by two drag corners
  // ---------------------------------------------------------------------------

  /** The axis-aligned rectangle with the two points as opposite corners: its
      left and right edges are the smaller and larger x, its top and bottom
      edges the smaller and larger y. */
  function GetCurrentRect(start: Point, end: Point): (r: Rect)
    ensures r.Left() == Min(start.x, end.x) && r.Right() == Max(start.x, end.x)
    ensures r.Top() == Min(start.y, end.y) && r.Bottom() == Max(start.y, end.y)
    ensures r.width == Abs(end.x - start.x) && r.height == Abs(end.y - start.y)
  {
    Rect(Min(start.x, end.x), Min(start.y, end.y), Abs(end.x - start.x), Abs(end.y - start.y))
  }

  /** The order of the two corners does not matter. */
  lemma GetCurrentRectSymmetric(start: Point, end: Point)
    ensures GetCurrentRect(start, end) == GetCurrentRect(end, start)
  {
  }

  /** A rectangle with non-negative size is rebuilt exactly from its own
      top-left and bottom-right corners. */
  lemma GetCurrentRectOfCorners(r: Rect)
    requires r.width >= 0 && r.height >= 0
    ensures GetCurrentRect(r.TopLeft(), r.BottomRight()) == r
  {
  }

  // ---------------------------------------------------------------------------
  // Grid snapping
  // ---------------------------------------------------------------------------

  /** True when `v` lies on a grid line of spacing `g`. */
  predicate OnGrid(v: int, g: int)
    requires g > 0
  {
    v % g == 0
  }

  /** `Math.Round(x / (double)g)` for `g > 0`: the nearest integer to the exact
      quotient, with an exact half going to the even neighbour (the default
      `MidpointRounding.ToEven` of `Math.Round(double)`). */
  function RoundQuotient(x: int, g: int): (q: int)
    requires g > 0
    ensures 2 * Abs(x - q * g) <= g
    ensures 2 * Abs(x - q * g) == g ==> q % 2 == 0
  {
    var fl := x / g;
    var rem := x % g;
    assert x == fl * g + rem;
    var q := if 2 * rem < g then fl
      else if 2 * rem > g then fl + 1
      else if fl % 2 == 0 then fl else fl + 1;
    assert (fl + 1) * g == fl * g + g;
    q
  }

  /** Multiplying by a positive spacing keeps the sign of the factor. */
  lemma MulSign(d: int, g: int)
    requires g > 0
    ensures d >= 1 ==> d * g >= g
    ensures d <= -1 ==> d * g <= -g
    ensures d >= 0 ==> d * g >= 0
    ensures d <= 0 ==> d * g <= 0
  {
    if d >= 1 {
      assert (d - 1) * g >= 0;
    } else if d <= -1 {
      assert (-1 - d) * g >= 0;
    }
  }

  /** A multiple of `g` strictly between `-g` and `g` is zero. */
  lemma SmallMultipleIsZero(d: int, g: int)
    requires g > 0 && -g < d * g < g
    ensures d == 0
  {
    MulSign(d, g);
  }

  /** The multiple of `q` by `g` lies on the grid and has quotient `q`. */
  lemma MultipleOnGrid(q: int, g: int)
    requires g > 0
    ensures (q * g) % g == 0 && (q * g) / g == q
  {
    var m := q * g;
    var d := m / g - q;
    assert m == (m / g) * g + m % g;
    assert (m / g) * g == (d + q) * g == d * g + q * g;
    SmallMultipleIsZero(d, g);
  }

  /** One coordinate of `SnapPoint`: the nearest grid line, ties to the line
      with an even index. */
  function SnapCoord(x: int, g: int): (r: int)
    requires g > 0
    ensures OnGrid(r, g)
    ensures 2 * Abs(r - x) <= g
    ensures 2 * Abs(r - x) == g ==> (r / g) % 2 == 0
  {
    var q := RoundQuotient(x, g);
    MultipleOnGrid(q, g);
    q * g
  }

  /** A coordinate already on the grid is left where it is. */
  lemma SnapCoordFixesGrid(x: int, g: int)
    requires g > 0 && OnGrid(x, g)
    ensures SnapCoord(x, g) == x
  {
    var r := SnapCoord(x, g);
    assert r == (r / g) * g && x == (x / g) * g;
    var k := r / g - x / g;
    assert r - x == k * g;
    SmallMultipleIsZero(k, g);
  }

  /** Snapping a coordinate twice is snapping it once. */
  lemma SnapCoordIdempotent(x: int, g: int)
    requires g > 0
    ensures SnapCoord(SnapCoord(x, g), g) == SnapCoord(x, g)
  {
    SnapCoordFixesGrid(SnapCoord(x, g), g);
  }

  /** The grid line at or just below `x`. */
  function CellStart(x: int, g: int): int
    requires g > 0
  {
    (x / g) * g
  }

  /** The snapped line is the grid line at or just below `x` or the one just
      above it. */
  lemma SnapCoordBracket(x: int, g: int)
    requires g > 0
    ensures var c := CellStart(x, g);
      && (SnapCoord(x, g) == c || SnapCoord(x, g) == c + g)
      && c <= x < c + g
  {
    var fl := x / g;
    assert x == fl * g + x % g;
    assert (fl + 1) * g == fl * g + g;
  }

  /** The snapped coordinate is at least as close to `x` as every other grid
      line `k * g`. */
  lemma SnapCoordIsNearest(x: int, g: int, k: int)
    requires g > 0
    ensures Abs(SnapCoord(x, g) - x) <= Abs(k * g - x)
  {
    var c := CellStart(x, g);
    SnapCoordBracket(x, g);
    var j := k - x / g;
    assert k * g == c + j * g;
    MulSign(j, g);
  }

  /** Two coordinates between the same pair of grid lines round in order. */
  lemma RoundQuotientSameCell(a: int, b: int, g: int)
    requires g > 0 && a <= b && a / g == b / g
    ensures RoundQuotient(a, g) <= RoundQuotient(b, g)
  {
    var f, ra, rb := a / g, a % g, b % g;
    assert 0 <= ra < g && 0 <= rb < g;
    assert a == f * g + ra && b == f * g + rb;
    assert ra <= rb;
  }

  /** The cells of two ordered coordinates are the same or in order. */
  lemma CellsOrdered(a: int, b: int, g: int)
    requires g > 0 && a <= b
    ensures CellStart(a, g) == CellStart(b, g) || CellStart(a, g) + g <= CellStart(b, g)
    ensures CellStart(a, g) == CellStart(b, g) ==> a / g == b / g
  {
    var qa, qb, ra, rb := a / g, b / g, a % g, b % g;
    assert 0 <= ra < g && 0 <= rb < g;
    assert a == qa * g + ra && b == qb * g + rb;
    var d := qb - qa;
    assert qb * g == qa * g + d * g;
    MulSign(d, g);
    assert d * g > -g;
    assert d >= 0;
  }

  /** Within one cell, snapping keeps the order. */
  lemma SnapCoordSameCell(a: int, b: int, g: int)
    requires g > 0 && a <= b && a / g == b / g
    ensures SnapCoord(a, g) <= SnapCoord(b, g)
  {
    var qa, qb := RoundQuotient(a, g), RoundQuotient(b, g);
    RoundQuotientSameCell(a, b, g);
    assert SnapCoord(a, g) == qa * g && SnapCoord(b, g) == qb * g;
    var d := qb - qa;
    assert qb * g == qa * g + d * g;
    MulSign(d, g);
  }

  /** Snapping never moves a coordinate past another: it is monotone. */
  lemma SnapCoordMonotone(a: int, b: int, g: int)
    requires g > 0 && a <= b
    ensures SnapCoord(a, g) <= SnapCoord(b, g)
  {
    SnapCoordBracket(a, g);
    SnapCoordBracket(b, g);
    CellsOrdered(a, b, g);
    if CellStart(a, g) == CellStart(b, g) {
      SnapCoordSameCell(a, b, g);
    }
  }

  /** Because snapping is monotone it commutes with taking the smaller or the
      larger of two coordinates. */
  lemma SnapCoordMinMax(a: int, b: int, g: int)
    requires g > 0
    ensures SnapCoord(Min(a, b), g) == Min(SnapCoord(a, g), SnapCoord(b, g))
    ensures SnapCoord(Max(a, b), g) == Max(SnapCoord(a, g), SnapCoord(b, g))
  {
    if a <= b {
      SnapCoordMonotone(a, b, g);
    } else {
      SnapCoordMonotone(b, a, g);
    }
  }

  /** `SnapPoint(p, grid)`: each coordinate moves to its nearest grid line. */
  /** At the form's grid of 20, snapping a 32-bit coordinate gives a 32-bit
      coordinate: the `* grid` after the rounding never leaves the `int` range. */
  lemma SnapCoordFitsInt32AtTwenty(x: int)
    requires -0x8000_0000 <= x < 0x8000_0000
    ensures -0x8000_0000 <= SnapCoord(x, 20) < 0x8000_0000
  {
    var r := SnapCoord(x, 20);
    assert r % 20 == 0 && 2 * Abs(r - x) <= 20;
    var k := r / 20;
    assert r == 20 * k;
    assert -107374182 <= k <= 107374182;
  }

  function SnapPoint(p: Point, g: int): (r: Point)
    requires g > 0
    ensures OnGrid(r.x, g) && OnGrid(r.y, g)
    ensures 2 * Abs(r.x - p.x) <= g && 2 * Abs(r.y - p.y) <= g
    ensures 2 * Abs(r.x - p.x) == g ==> (r.x / g) % 2 == 0
    ensures 2 * Abs(r.y - p.y) == g ==> (r.y / g) % 2 == 0
  {
    Point(SnapCoord(p.x, g), SnapCoord(p.y, g))
  }

  /** A point on the grid is unchanged by snapping. */
  lemma SnapPointFixesGrid(p: Point, g: int)
    requires g > 0 && OnGrid(p.x, g) && OnGrid(p.y, g)
    ensures SnapPoint(p, g) == p
  {
    SnapCoordFixesGrid(p.x, g);
    SnapCoordFixesGrid(p.y, g);
  }

  /** Snapping a point twice is snapping it once. */
  lemma SnapPointIdempotent(p: Point, g: int)
    requires g > 0
    ensures SnapPoint(SnapPoint(p, g), g) == SnapPoint(p, g)
  {
    SnapPointFixesGrid(SnapPoint(p, g), g);
  }

  /** `SnapRect(r, grid)`: snap the top-left and bottom-right corners on their
      own and span the rectangle between them again. All four edges land on
      grid lines and the size is non-negative; when `r` has non-negative size,
      each edge is the snap of the matching edge of `r`. */
  function SnapRect(r: Rect, g: int): (s: Rect)
    requires g > 0
    ensures OnGrid(s.Left(), g) && OnGrid(s.Top(), g)
    ensures OnGrid(s.Right(), g) && OnGrid(s.Bottom(), g)
    ensures s.width >= 0 && s.height >= 0
    ensures r.width >= 0 ==> s.Left() == SnapCoord(r.Left(), g) && s.Right() == SnapCoord(r.Right(), g)
    ensures r.height >= 0 ==> s.Top() == SnapCoord(r.Top(), g) && s.Bottom() == SnapCoord(r.Bottom(), g)
  {
    var p1 := SnapPoint(r.TopLeft(), g);
    var p2 := SnapPoint(r.BottomRight(), g);
    SnappedCornersOrdered(r, g);
    GetCurrentRect(p1, p2)
  }

  /** Snapping keeps the corners of a rectangle with non-negative size in order. */
  lemma SnappedCornersOrdered(r: Rect, g: int)
    requires g > 0
    ensures r.width >= 0 ==> SnapCoord(r.Left(), g) <= SnapCoord(r.Right(), g)
    ensures r.height >= 0 ==> SnapCoord(r.Top(), g) <= SnapCoord(r.Bottom(), g)
  {
    if r.width >= 0 { SnapCoordMonotone(r.Left(), r.Right(), g); }
    if r.height >= 0 { SnapCoordMonotone(r.Top(), r.Bottom(), g); }
  }

  /** A rectangle whose edges are on the grid and whose size is non-negative is
      unchanged by snapping. */
  lemma SnapRectFixesGrid(r: Rect, g: int)
    requires g > 0 && r.width >= 0 && r.height >= 0
    requires OnGrid(r.Left(), g) && OnGrid(r.Top(), g) && OnGrid(r.Right(), g) && OnGrid(r.Bottom(), g)
    ensures SnapRect(r, g) == r
  {
    SnapPointFixesGrid(r.TopLeft(), g);
    SnapPointFixesGrid(r.BottomRight(), g);
    GetCurrentRectOfCorners(r);
  }

  /** Snapping a rectangle twice is snapping it once. */
  lemma SnapRectIdempotent(r: Rect, g: int)
    requires g > 0
    ensures SnapRect(SnapRect(r, g), g) == SnapRect(r, g)
  {
    SnapRectFixesGrid(SnapRect(r, g), g);
  }

  // ---------------------------------------------------------------------------
  // Angles
  // ---------------------------------------------------------------------------

  /** C#'s `deg % 360f` on whole degrees: the remainder of truncating
      division, carrying the sign of the dividend. */
  function TruncRem360(a: int): (r: int)
    ensures -360 < r < 360
    ensures a >= 0 ==> r >= 0
    ensures a < 0 ==> r <= 0
    ensures (a - r) % 360 == 0
  {
    if a >= 0 then a % 360 else -((-a) % 360)
  }

  /** `NormalizeAngle(deg)`: the angle in [0, 360) that names the same direction
      as `deg`, computed as the truncated remainder plus 360 when negative. */
  function NormalizeAngle(deg: int): (r: int)
    ensures 0 <= r < 360
    ensures (deg - r) % 360 == 0
  {
    var d := TruncRem360(deg);
    if d < 0 then d + 360 else d
  }

  /** The result agrees with the Euclidean remainder, the unique value in
      [0, 360) congruent to `deg`. */
  lemma NormalizeAngleIsEuclidean(deg: int)
    ensures NormalizeAngle(deg) == deg % 360
  {
    var r := NormalizeAngle(deg);
    var k := (deg - r) / 360;
    assert deg == 360 * k + r;
  }

  /** Normalising an angle already in range leaves it alone. */
  lemma NormalizeAngleIdempotent(deg: int)
    ensures NormalizeAngle(NormalizeAngle(deg)) == NormalizeAngle(deg)
  {
    NormalizeAngleIsEuclidean(deg);
    NormalizeAngleIsEuclidean(NormalizeAngle(deg));
  }
}
