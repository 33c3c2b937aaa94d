/** Which lane a position is on: point-in-polygon by ray casting, over real numbers. */
module Geometry {
  datatype Point = Point(x: real, y: real)

  const SEGMENT_EPS := 0.000000001
  const DIVISION_EPS := 0.000000000001

  function Cross(p: Point, a: Point, b: Point): real {
    (p.x - a.x) * (b.y - a.y) - (p.y - a.y) * (b.x - a.x)
  }

  function Dot(p: Point, a: Point, b: Point): real {
    (p.x - a.x) * (b.x - a.x) + (p.y - a.y) * (b.y - a.y)
  }

  predicate OnSegment(p: Point, a: Point, b: Point) {
    && -SEGMENT_EPS <= Cross(p, a, b) <= SEGMENT_EPS
    && Dot(p, a, b) >= -SEGMENT_EPS
    && Dot(p, a, b) - Dot(b, a, b) <= SEGMENT_EPS
  }

  /** Whether the ray from `p` to the right crosses the edge. A zero divisor yields an infinity of the numerator's sign
      or, for zero by zero, a value that compares false. */
  predicate Crosses(p: Point, a: Point, b: Point) {
    && (a.y > p.y) != (b.y > p.y)
    && var numerator, divisor := (b.x - a.x) * (p.y - a.y), b.y - a.y + DIVISION_EPS;
       if divisor == 0.0 then numerator > 0.0 else p.x < numerator / divisor + a.x
  }

  // ----- The polygon test

  function Next(i: nat, n: nat): nat
    requires n > 0
  {
    (i + 1) % n
  }

  function Previous(i: nat, n: nat): (j: nat)
    requires i < n
    ensures j < n
  {
    if i == 0 then n - 1 else i - 1
  }

  predicate OnEdge(p: Point, polygon: seq<Point>, i: nat)
    requires i < |polygon|
  {
    OnSegment(p, polygon[i], polygon[Next(i, |polygon|)])
  }

  predicate OnBoundary(p: Point, polygon: seq<Point>) {
    exists i | 0 <= i < |polygon| :: OnEdge(p, polygon, i)
  }

  predicate CrossesEdge(p: Point, polygon: seq<Point>, i: nat)
    requires i < |polygon|
  {
    Crosses(p, polygon[i], polygon[Previous(i, |polygon|)])
  }

  /** Whether an odd number of the edges into the first `n` vertices is crossed. */
  predicate OddCrossings(p: Point, polygon: seq<Point>, n: nat)
    requires n <= |polygon|
  {
    n > 0 && CrossesEdge(p, polygon, n - 1) != OddCrossings(p, polygon, n - 1)
  }

  predicate Inside(p: Point, polygon: seq<Point>) {
    |polygon| >= 3 && (OnBoundary(p, polygon) || OddCrossings(p, polygon, |polygon|))
  }

  method PointInPolygon(p: Point, polygon: seq<Point>) returns (inside: bool)
    ensures inside == Inside(p, polygon)
  {
    hide OnSegment, Crosses;
    var n := |polygon|;
    if n < 3 {
      return false;
    }
    for i := 0 to n
      invariant forall k | 0 <= k < i :: !OnEdge(p, polygon, k)
    {
      if OnSegment(p, polygon[i], polygon[(i + 1) % n]) {
        assert OnEdge(p, polygon, i);
        return true;
      }
    }
    inside := false;
    var j := n - 1;
    for i := 0 to n
      invariant j == if i == 0 then n - 1 else i - 1
      invariant inside == OddCrossings(p, polygon, i)
    {
      if Crosses(p, polygon[i], polygon[j]) {
        inside := !inside;
      }
      j := i;
    }
  }

  // ----- Rotating the vertex list

  function Rotated(polygon: seq<Point>): (r: seq<Point>)
    requires |polygon| > 0
    ensures |r| == |polygon|
  {
    polygon[1..] + [polygon[0]]
  }

  function RotatedBy(polygon: seq<Point>, k: nat): (r: seq<Point>)
    requires |polygon| > 0
    ensures |r| == |polygon|
  {
    if k == 0 then polygon else Rotated(RotatedBy(polygon, k - 1))
  }

  lemma RotatedEdge(p: Point, polygon: seq<Point>, i: nat)
    requires i < |polygon|
    ensures OnEdge(p, Rotated(polygon), i) == OnEdge(p, polygon, Next(i, |polygon|))
    ensures CrossesEdge(p, Rotated(polygon), i) == CrossesEdge(p, polygon, Next(i, |polygon|))
  {
    hide OnSegment, Crosses;
    NextSmall(i, |polygon|);
    NextSmall(Next(i, |polygon|), |polygon|);
  }

  lemma NextSmall(i: nat, n: nat)
    requires i < n
    ensures Next(i, n) == if i + 1 < n then i + 1 else 0
  {
  }

  /** After rotation the first `n` edges are the second to the `n+1`-st of before. */
  lemma {:induction false} RotatedCrossings(p: Point, polygon: seq<Point>, n: nat)
    requires n < |polygon|
    ensures OddCrossings(p, polygon, n + 1) == (CrossesEdge(p, polygon, 0) != OddCrossings(p, Rotated(polygon), n))
  {
    hide CrossesEdge;
    if n > 0 {
      RotatedCrossings(p, polygon, n - 1);
      RotatedEdge(p, polygon, n - 1);
      NextSmall(n - 1, |polygon|);
    }
  }

  lemma RotatedInside(p: Point, polygon: seq<Point>)
    requires |polygon| > 0
    ensures Inside(p, Rotated(polygon)) == Inside(p, polygon)
  {
    hide OnEdge, CrossesEdge;
    var n := |polygon|;
    RotatedCrossings(p, polygon, n - 1);
    RotatedEdge(p, polygon, n - 1);
    NextSmall(n - 1, n);
    if OnBoundary(p, polygon) {
      var i :| 0 <= i < n && OnEdge(p, polygon, i);
      RotatedEdge(p, polygon, Previous(i, n));
      NextSmall(Previous(i, n), n);
    }
    if OnBoundary(p, Rotated(polygon)) {
      var i :| 0 <= i < n && OnEdge(p, Rotated(polygon), i);
      RotatedEdge(p, polygon, i);
      NextSmall(i, n);
    }
  }

  /** Where the vertex list of a polygon starts does not matter. */
  lemma {:induction false} RotationInvariant(p: Point, polygon: seq<Point>, k: nat)
    requires |polygon| > 0
    ensures Inside(p, RotatedBy(polygon, k)) == Inside(p, polygon)
  {
    hide Inside, Rotated;
    if k > 0 {
      RotationInvariant(p, polygon, k - 1);
      RotatedInside(p, RotatedBy(polygon, k - 1));
    }
  }

  // ----- Rectangles

  predicate InBox(p: Point, x0: real, y0: real, x1: real, y1: real) {
    x0 <= p.x <= x1 && y0 <= p.y <= y1
  }

  // Equal or at least half a unit apart: what a half-unit grid guarantees.
  predicate Apart(a: real, b: real) {
    a == b || a - b >= 0.5 || b - a >= 0.5
  }

  function Product(u: real, v: real): real {
    u * v
  }

  lemma FarProduct(u: real, v: real)
    requires Apart(u, 0.0) && Apart(v, 0.0)
    ensures Product(u, v) == 0.0 <==> u == 0.0 || v == 0.0
    ensures Product(u, v) > 0.0 <==> (u > 0.0 && v > 0.0) || (u < 0.0 && v < 0.0)
    ensures Product(u, v) == 0.0 || Product(u, v) >= 0.25 || Product(u, v) <= -0.25
  {
    if u > 0.0 && v > 0.0 {
      assert (u - 0.5) * v >= 0.0;
    } else if u > 0.0 && v < 0.0 {
      assert (u - 0.5) * -v >= 0.0;
    } else if u < 0.0 && v > 0.0 {
      assert (-u - 0.5) * v >= 0.0;
    } else if u < 0.0 && v < 0.0 {
      assert (-u - 0.5) * -v >= 0.0;
    }
  }

  /** The segment test along a side from `a` to `b`, for a point at `along`, `across` off the side's line. */
  predicate SideTest(along: real, a: real, b: real, across: real) {
    && -SEGMENT_EPS <= Product(across, b - a) <= SEGMENT_EPS
    && Product(along - a, b - a) >= -SEGMENT_EPS
    && Product(along - b, b - a) <= SEGMENT_EPS
  }

  lemma HorizontalForms(p: Point, a: Point, b: Point)
    requires a.y == b.y
    ensures Cross(p, a, b) == -Product(p.y - a.y, b.x - a.x)
    ensures Dot(p, a, b) == Product(p.x - a.x, b.x - a.x)
    ensures Dot(p, a, b) - Dot(b, a, b) == Product(p.x - b.x, b.x - a.x)
  {
  }

  lemma VerticalForms(p: Point, a: Point, b: Point)
    requires a.x == b.x
    ensures Cross(p, a, b) == Product(p.x - a.x, b.y - a.y)
    ensures Dot(p, a, b) == Product(p.y - a.y, b.y - a.y)
    ensures Dot(p, a, b) - Dot(b, a, b) == Product(p.y - b.y, b.y - a.y)
  {
  }

  /** On the grid the tolerance lets in exactly the points of the side. */
  lemma SideTestIff(along: real, a: real, b: real, across: real)
    requires a != b && Apart(a, b) && Apart(along, a) && Apart(along, b) && Apart(across, 0.0)
    ensures SideTest(along, a, b, across) <==> across == 0.0 && (a <= along <= b || b <= along <= a)
  {
    hide Product;
    FarProduct(across, b - a);
    FarProduct(along - a, b - a);
    FarProduct(along - b, b - a);
  }

  lemma OnHorizontal(p: Point, a: Point, b: Point)
    requires a.y == b.y && a.x != b.x && Apart(a.x, b.x) && Apart(p.x, a.x) && Apart(p.x, b.x) && Apart(p.y, a.y)
    ensures OnSegment(p, a, b) <==> p.y == a.y && (a.x <= p.x <= b.x || b.x <= p.x <= a.x)
  {
    hide Cross, Dot, Product;
    HorizontalForms(p, a, b);
    SideTestIff(p.x, a.x, b.x, p.y - a.y);
  }

  lemma OnVertical(p: Point, a: Point, b: Point)
    requires a.x == b.x && a.y != b.y && Apart(a.y, b.y) && Apart(p.y, a.y) && Apart(p.y, b.y) && Apart(p.x, a.x)
    ensures OnSegment(p, a, b) <==> p.x == a.x && (a.y <= p.y <= b.y || b.y <= p.y <= a.y)
  {
    hide Cross, Dot, Product;
    VerticalForms(p, a, b);
    SideTestIff(p.y, a.y, b.y, p.x - a.x);
  }

  lemma CrossesHorizontal(p: Point, a: Point, b: Point)
    requires a.y == b.y
    ensures !Crosses(p, a, b)
  {
  }

  lemma ZeroQuotient(u: real, v: real, divisor: real)
    requires u == 0.0 && divisor != 0.0
    ensures u * v / divisor == 0.0
  {
    assert u * v == 0.0;
  }

  lemma CrossesVertical(p: Point, a: Point, b: Point)
    requires a.x == b.x && Apart(a.y, b.y)
    ensures Crosses(p, a, b) <==> (a.y > p.y) != (b.y > p.y) && p.x < a.x
  {
    if (a.y > p.y) != (b.y > p.y) {
      ZeroQuotient(b.x - a.x, p.y - a.y, b.y - a.y + DIVISION_EPS);
    }
  }

  // The corners of a rectangle from the lower left, counter-clockwise or clockwise.
  function Rectangle(x0: real, y0: real, x1: real, y1: real, clockwise: bool): (r: seq<Point>)
    ensures |r| == 4
  {
    if clockwise then [Point(x0, y0), Point(x0, y1), Point(x1, y1), Point(x1, y0)]
    else [Point(x0, y0), Point(x1, y0), Point(x1, y1), Point(x0, y1)]
  }

  predicate OnGrid(p: Point, x0: real, y0: real, x1: real, y1: real) {
    && x0 < x1 && Apart(x0, x1) && Apart(p.x, x0) && Apart(p.x, x1)
    && y0 < y1 && Apart(y0, y1) && Apart(p.y, y0) && Apart(p.y, y1)
  }

  lemma FourEdges(p: Point, polygon: seq<Point>)
    requires |polygon| == 4
    ensures OnBoundary(p, polygon) <==>
      || OnSegment(p, polygon[0], polygon[1]) || OnSegment(p, polygon[1], polygon[2])
      || OnSegment(p, polygon[2], polygon[3]) || OnSegment(p, polygon[3], polygon[0])
    ensures OddCrossings(p, polygon, 4) <==>
      (((Crosses(p, polygon[3], polygon[2]) != Crosses(p, polygon[2], polygon[1]))
          != Crosses(p, polygon[1], polygon[0])) != Crosses(p, polygon[0], polygon[3]))
  {
    hide OnSegment, Crosses;
    assert OnEdge(p, polygon, 0) == OnSegment(p, polygon[0], polygon[1]);
    assert OnEdge(p, polygon, 1) == OnSegment(p, polygon[1], polygon[2]);
    assert OnEdge(p, polygon, 2) == OnSegment(p, polygon[2], polygon[3]);
    assert OnEdge(p, polygon, 3) == OnSegment(p, polygon[3], polygon[0]);
    assert OddCrossings(p, polygon, 1) == CrossesEdge(p, polygon, 0);
    assert OddCrossings(p, polygon, 2) == (CrossesEdge(p, polygon, 1) != CrossesEdge(p, polygon, 0));
  }

  lemma RectangleFromLowerLeft(p: Point, x0: real, y0: real, x1: real, y1: real, clockwise: bool)
    requires OnGrid(p, x0, y0, x1, y1)
    ensures Inside(p, Rectangle(x0, y0, x1, y1, clockwise)) <==> InBox(p, x0, y0, x1, y1)
  {
    hide OnSegment, Crosses, OnBoundary, OddCrossings;
    var a, b, c, d := Point(x0, y0), Point(x1, y0), Point(x1, y1), Point(x0, y1);
    FourEdges(p, Rectangle(x0, y0, x1, y1, clockwise));
    if clockwise {
      OnVertical(p, a, d); OnHorizontal(p, d, c); OnVertical(p, c, b); OnHorizontal(p, b, a);
      CrossesVertical(p, d, a); CrossesHorizontal(p, c, d); CrossesVertical(p, b, c); CrossesHorizontal(p, a, b);
    } else {
      OnHorizontal(p, a, b); OnVertical(p, b, c); OnHorizontal(p, c, d); OnVertical(p, d, a);
      CrossesHorizontal(p, b, a); CrossesVertical(p, c, b); CrossesHorizontal(p, d, c); CrossesVertical(p, a, d);
    }
  }

  /** A rectangle listed from any corner in either direction contains exactly the points of the closed box, for all
      points and corners of a half-unit grid. */
  lemma RectangleIff(p: Point, x0: real, y0: real, x1: real, y1: real, clockwise: bool, k: nat)
    requires OnGrid(p, x0, y0, x1, y1)
    ensures Inside(p, RotatedBy(Rectangle(x0, y0, x1, y1, clockwise), k)) <==> InBox(p, x0, y0, x1, y1)
  {
    hide Inside, RotatedBy, Rectangle;
    RectangleFromLowerLeft(p, x0, y0, x1, y1, clockwise);
    RotationInvariant(p, Rectangle(x0, y0, x1, y1, clockwise), k);
  }

  lemma HalvesApart(a: int, b: int)
    ensures Apart(a as real / 2.0, b as real / 2.0)
    ensures a as real / 2.0 <= b as real / 2.0 <==> a <= b
    ensures a % 2 == 0 ==> a as real / 2.0 == (a / 2) as real
  {
  }

  /** Integer positions against corners at whole or half units are such a grid. */
  lemma RectangleOnHalfUnits(x: int, y: int, a0: int, b0: int, a1: int, b1: int, clockwise: bool, k: nat)
    requires a0 < a1 && b0 < b1
    ensures var r := Rectangle(a0 as real / 2.0, b0 as real / 2.0, a1 as real / 2.0, b1 as real / 2.0, clockwise);
            Inside(Point(x as real, y as real), RotatedBy(r, k)) <==> a0 <= 2 * x <= a1 && b0 <= 2 * y <= b1
  {
    hide Inside, RotatedBy, Rectangle, Apart;
    HalvesApart(2 * x, a0);
    HalvesApart(2 * x, a1);
    HalvesApart(2 * y, b0);
    HalvesApart(2 * y, b1);
    HalvesApart(a0, a1);
    HalvesApart(b0, b1);
    RectangleIff(Point(x as real, y as real), a0 as real / 2.0, b0 as real / 2.0, a1 as real / 2.0, b1 as real / 2.0,
        clockwise, k);
  }

  // ----- The lane of a position

  datatype Area = Area(id: string, points: seq<Point>)

  datatype QueryResult = NotFound | InLane(index: nat) | InCenter

  /** The centre is the first area with the configured id, if any. */
  predicate IsCenter(areas: seq<Area>, centerId: string, i: nat) {
    centerId != "" && i < |areas| && areas[i].id == centerId && forall j: nat | j < i :: areas[j].id != centerId
  }

  predicate InCenterArea(p: Point, areas: seq<Area>, centerId: string) {
    exists i: nat | i < |areas| :: IsCenter(areas, centerId, i) && Inside(p, areas[i].points)
  }

  /** With the id of an area, the first of that id decides, whatever the others contain; an unknown or empty id makes
      no centre. */
  lemma CenterDecides(p: Point, areas: seq<Area>, centerId: string)
    ensures forall i | 0 <= i < |areas| && areas[i].id == centerId != "" && centerId !in Ids(areas[..i]) ::
              InCenterArea(p, areas, centerId) <==> Inside(p, areas[i].points)
    ensures centerId == "" || centerId !in Ids(areas) ==> !InCenterArea(p, areas, centerId)
  {
    hide Inside;
    forall i | 0 <= i < |areas| && areas[i].id == centerId != "" && centerId !in Ids(areas[..i])
      ensures IsCenter(areas, centerId, i)
    {
      assert forall j | 0 <= j < i :: Ids(areas[..i])[j] == areas[j].id;
    }
    assert forall j | 0 <= j < |areas| :: Ids(areas)[j] == areas[j].id;
  }

  function Ids(areas: seq<Area>): (r: seq<string>)
    ensures |r| == |areas|
  {
    seq(|areas|, i requires 0 <= i < |areas| => areas[i].id)
  }

  method IsInIntersectionCenter(p: Point, areas: seq<Area>, centerId: string) returns (inside: bool)
    ensures inside == InCenterArea(p, areas, centerId)
  {
    hide Inside;
    if centerId == "" {
      return false;
    }
    for i := 0 to |areas|
      invariant forall j | 0 <= j < i :: areas[j].id != centerId
    {
      if areas[i].id == centerId {
        assert IsCenter(areas, centerId, i);
        inside := PointInPolygon(p, areas[i].points);
        return;
      }
    }
    return false;
  }

  /** The centre hides the lanes under it; of overlapping lanes the first listed wins. */
  method GetLaneId(p: Point, areas: seq<Area>, centerId: string, lanes: seq<Area>) returns (r: QueryResult)
    ensures r == InCenter <==> InCenterArea(p, areas, centerId)
    ensures r.InLane? ==> r.index < |lanes| && Inside(p, lanes[r.index].points)
    ensures r.InLane? ==> forall j: nat | j < r.index :: !Inside(p, lanes[j].points)
    ensures r == NotFound ==> forall j | 0 <= j < |lanes| :: !Inside(p, lanes[j].points)
  {
    hide Inside;
    var center := IsInIntersectionCenter(p, areas, centerId);
    if center {
      return InCenter;
    }
    for i := 0 to |lanes|
      invariant forall j | 0 <= j < i :: !Inside(p, lanes[j].points)
    {
      var inside := PointInPolygon(p, lanes[i].points);
      if inside {
        return InLane(i);
      }
    }
    return NotFound;
  }
}
