/** The polygon test on a half-unit grid, where it can be compared with exact geometry over the integers. */
module PolygonGrid {
  import opened Geometry

  // A point counted in half units.
  datatype Spot = Spot(x: int, y: int)

  function At(s: Spot): Point {
    Point(s.x as real / 2.0, s.y as real / 2.0)
  }

  function AllAt(spots: seq<Spot>): (r: seq<Point>)
    ensures |r| == |spots| && forall i | 0 <= i < |r| :: r[i] == At(spots[i])
  {
    seq(|spots|, i requires 0 <= i < |spots| => At(spots[i]))
  }

  /** Negative left of the line from `a` up to `b`, zero on it. */
  function Turn(p: Spot, a: Spot, b: Spot): int {
    (p.x - a.x) * (b.y - a.y) - (p.y - a.y) * (b.x - a.x)
  }

  predicate Between(n: int, a: int, b: int) {
    a <= n <= b || b <= n <= a
  }

  /** On the closed side: on its line and within its box. */
  predicate OnSide(p: Spot, a: Spot, b: Spot) {
    Turn(p, a, b) == 0 && Between(p.x, a.x, b.x) && Between(p.y, a.y, b.y)
  }

  /** One end lies above the point and the other does not, and the point lies left of the line, seen upwards. */
  predicate RayMeets(p: Spot, a: Spot, b: Spot) {
    || (a.y <= p.y < b.y && Turn(p, a, b) < 0)
    || (b.y <= p.y < a.y && Turn(p, a, b) > 0)
  }

  // ----- Integer arithmetic seen as real arithmetic

  lemma MulReal(a: int, b: int)
    ensures a as real * b as real == (a * b) as real
  {
  }

  function Along(p: Spot, a: Spot, b: Spot): int {
    (p.x - a.x) * (b.x - a.x) + (p.y - a.y) * (b.y - a.y)
  }

  lemma HalfProduct(a: int, b: int, c: int, d: int)
    ensures (a as real / 2.0 - b as real / 2.0) * (c as real / 2.0 - d as real / 2.0) ==
      ((a - b) * (c - d)) as real / 4.0
  {
    var u, v := a - b, c - d;
    MulReal(u, v);
    assert a as real / 2.0 - b as real / 2.0 == u as real / 2.0;
    assert c as real / 2.0 - d as real / 2.0 == v as real / 2.0;
    assert (u as real / 2.0) * (v as real / 2.0) == u as real * v as real / 4.0;
  }

  lemma CrossIsTurn(p: Spot, a: Spot, b: Spot)
    ensures Cross(At(p), At(a), At(b)) == Turn(p, a, b) as real / 4.0
    ensures Dot(At(p), At(a), At(b)) == Along(p, a, b) as real / 4.0
  {
    HalfProduct(p.x, a.x, b.y, a.y);
    HalfProduct(p.y, a.y, b.x, a.x);
    HalfProduct(p.x, a.x, b.x, a.x);
    HalfProduct(p.y, a.y, b.y, a.y);
  }

  // ----- On a side

  lemma ScaledAlong(u: int, v: int, e: int, d: int)
    requires u * d == v * e
    ensures u * (e * e + d * d) == (u * e + v * d) * e
    ensures v * (e * e + d * d) == (u * e + v * d) * d
  {
    assert u * (e * e + d * d) == u * e * e + u * d * d == u * e * e + v * e * d;
    assert v * (e * e + d * d) == v * e * e + v * d * d == u * d * e + v * d * d;
  }

  /** A share `0 <= k <= n` of `e`, in products: `u * n == k * e`. */
  lemma ShareBetween(u: int, e: int, k: int, n: int)
    requires 0 <= k <= n && n > 0 && u * n == k * e
    ensures Between(u, 0, e)
  {
    if e >= 0 {
      assert 0 <= k * e <= n * e;
      assert u < 0 ==> u * n < 0;
      assert u > e ==> (u - e) * n > 0;
    } else {
      assert n * e <= k * e <= 0;
      assert u > 0 ==> u * n > 0;
      assert u < e ==> (u - e) * n < 0;
    }
  }

  lemma BetweenShare(u: int, e: int)
    requires Between(u, 0, e)
    ensures 0 <= u * e <= e * e
  {
    if e >= 0 {
      assert u * e <= e * e;
    } else {
      assert -u * -e <= -e * -e;
    }
  }

  lemma SidesIff(u: int, v: int, e: int, d: int)
    requires u * d == v * e && (e != 0 || d != 0)
    ensures 0 <= u * e + v * d <= e * e + d * d <==> Between(u, 0, e) && Between(v, 0, d)
  {
    var k, n := u * e + v * d, e * e + d * d;
    if 0 <= k <= n {
      assert n > 0;
      ScaledAlong(u, v, e, d);
      ShareBetween(u, e, k, n);
      ShareBetween(v, d, k, n);
    }
    if Between(u, 0, e) && Between(v, 0, d) {
      BetweenShare(u, e);
      BetweenShare(v, d);
    }
  }

  /** Between different ends the tolerance lets in exactly the points of the side; equal ends let in every point. */
  lemma OnSegmentIff(p: Spot, a: Spot, b: Spot)
    ensures OnSegment(At(p), At(a), At(b)) <==> a == b || OnSide(p, a, b)
  {
    CrossIsTurn(p, a, b);
    CrossIsTurn(b, a, b);
    var turn, k, n := Turn(p, a, b), Along(p, a, b), Along(b, a, b);
    if a == b {
      assert turn == 0 && k == 0 && n == 0;
    } else if turn == 0 {
      SidesIff(p.x - a.x, p.y - a.y, b.x - a.x, b.y - a.y);
    }
  }

  // ----- Crossing the ray

  // The largest distance to the right of a vertex at which the small addend cannot tip the comparison.
  const FAR := 250000000000.0

  lemma SmallShare(u: real)
    requires -FAR < u < FAR
    ensures -0.25 < u * DIVISION_EPS < 0.25
  {
  }

  lemma Quotient(n: real, d: real, u: real)
    requires d != 0.0
    ensures d > 0.0 ==> (u < n / d <==> u * d < n)
    ensures d < 0.0 ==> (u < n / d <==> u * d > n)
  {
    var q := n / d;
    assert q * d == n;
    assert u < q && d > 0.0 ==> (q - u) * d > 0.0;
    assert u >= q && d > 0.0 ==> (u - q) * d >= 0.0;
    assert u < q && d < 0.0 ==> (q - u) * -d > 0.0;
    assert u >= q && d < 0.0 ==> (u - q) * -d >= 0.0;
  }

  /** The addend to the divisor does not tip the comparison: `across` is the distance off the line times the divisor. */
  lemma NotTipped(u: real, n: real, d: real, across: real)
    requires -FAR < u < FAR && (d >= 0.5 || d <= -0.5)
    requires across == Product(u, d) - n && (across >= 0.25 || across <= -0.25)
    ensures u < n / (d + DIVISION_EPS) <==> if d > 0.0 then across < 0.0 else across > 0.0
  {
    SmallShare(u);
    SumProduct(u, d, DIVISION_EPS);
    Quotient(n, d + DIVISION_EPS, u);
  }

  lemma SumProduct(u: real, d: real, e: real)
    ensures u * (d + e) == Product(u, d) + u * e
  {
  }

  /** Off its line, an edge is crossed exactly as the ray to the right meets it. */
  lemma CrossesIff(p: Spot, a: Spot, b: Spot)
    requires -FAR < At(p).x - At(a).x < FAR && Turn(p, a, b) != 0
    ensures Crosses(At(p), At(a), At(b)) <==> RayMeets(p, a, b)
  {
    hide Cross, Turn, Product, Crosses;
    var q, f, g := At(p), At(a), At(b);
    CrossesForm(q, f, g);
    if (f.y > q.y) != (g.y > q.y) {
      CrossIsTurn(p, a, b);
      CrossForm(q, f, g);
      NotTipped(q.x - f.x, Product(g.x - f.x, q.y - f.y), g.y - f.y, Cross(q, f, g));
    }
  }

  lemma CrossesForm(q: Point, f: Point, g: Point)
    ensures Crosses(q, f, g) ==> (f.y > q.y) != (g.y > q.y)
    ensures (f.y > q.y) != (g.y > q.y) && g.y - f.y + DIVISION_EPS != 0.0 ==>
      (Crosses(q, f, g) <==> q.x - f.x < Product(g.x - f.x, q.y - f.y) / (g.y - f.y + DIVISION_EPS))
  {
  }

  lemma CrossForm(q: Point, f: Point, g: Point)
    ensures Cross(q, f, g) == Product(q.x - f.x, g.y - f.y) - Product(g.x - f.x, q.y - f.y)
  {
  }

  /** From that distance on it can: a point left of an edge is taken to lie right of it. */
  lemma FarPointMisjudged()
    ensures var p, a, b := Spot(500000000000, 1), Spot(0, 0), Spot(1000000000001, 2);
            At(p).x - At(a).x == FAR && RayMeets(p, a, b) && !Crosses(At(p), At(a), At(b))
  {
    var p, a, b := Point(FAR, 0.5), Point(0.0, 0.0), Point(500000000000.5, 1.0);
    var n, d := (b.x - a.x) * (p.y - a.y), b.y - a.y + DIVISION_EPS;
    assert n == 250000000000.25 && d == 1.000000000001;
    Quotient(n, d, FAR);
  }

  // ----- Polygons

  /** The polygon returns to a vertex at once: some side has no length. */
  ghost predicate RepeatsVertex(spots: seq<Spot>) {
    exists i | 0 <= i < |spots| :: spots[i] == spots[Next(i, |spots|)]
  }

  ghost predicate OnOutline(p: Spot, spots: seq<Spot>) {
    exists i | 0 <= i < |spots| :: OnSide(p, spots[i], spots[Next(i, |spots|)])
  }

  /** The sides among the first `n`, from the closing one on, that the ray to the right meets. */
  function RaySides(p: Spot, spots: seq<Spot>, n: nat): (r: set<nat>)
    requires n <= |spots|
  {
    set i: nat | i < n && RayMeets(p, spots[i], spots[Previous(i, |spots|)])
  }

  /** Inside or on the outline, by counting the sides that the ray to the right meets. */
  ghost predicate Holds(p: Spot, spots: seq<Spot>) {
    |spots| >= 3 && (OnOutline(p, spots) || |RaySides(p, spots, |spots|)| % 2 == 1)
  }

  ghost predicate Near(p: Spot, spots: seq<Spot>) {
    forall i | 0 <= i < |spots| :: -FAR < At(p).x - At(spots[i]).x < FAR
  }

  lemma BoundaryIff(p: Spot, spots: seq<Spot>)
    ensures OnBoundary(At(p), AllAt(spots)) <==> RepeatsVertex(spots) || OnOutline(p, spots)
  {
    hide OnSegment, OnSide, Next;
    var n := |spots|;
    forall i | 0 <= i < n
      ensures Next(i, n) < n
      ensures OnEdge(At(p), AllAt(spots), i) <==>
              spots[i] == spots[Next(i, n)] || OnSide(p, spots[i], spots[Next(i, n)])
    {
      NextSmall(i, n);
      OnSegmentIff(p, spots[i], spots[Next(i, n)]);
    }
  }

  /** A point on the line of a side whose ends lie on different sides of its height is on the side. */
  lemma StraddlingIsOnSide(p: Spot, a: Spot, b: Spot)
    requires Turn(p, a, b) == 0 && (a.y > p.y) != (b.y > p.y)
    ensures OnSide(p, a, b) && OnSide(p, b, a)
  {
    var u, v, e, d := p.x - a.x, p.y - a.y, b.x - a.x, b.y - a.y;
    assert u * d == v * e;
    if d > 0 {
      ShareBetween(u, e, v, d);
    } else {
      assert u * -d == -v * e;
      ShareBetween(u, e, -v, -d);
    }
    TurnBack(p, a, b);
  }

  lemma TurnBack(p: Spot, a: Spot, b: Spot)
    ensures Turn(p, b, a) == -Turn(p, a, b)
  {
  }

  lemma EdgeCrossedIff(p: Spot, spots: seq<Spot>, i: nat)
    requires i < |spots| && Near(p, spots) && !OnOutline(p, spots)
    ensures CrossesEdge(At(p), AllAt(spots), i) <==> RayMeets(p, spots[i], spots[Previous(i, |spots|)])
  {
    hide Turn, OnSide, At, Crosses;
    var j := Previous(i, |spots|);
    var a, b := spots[i], spots[j];
    NextSmall(j, |spots|);
    assert !OnSide(p, b, a);
    if Turn(p, a, b) != 0 {
      CrossesIff(p, a, b);
    } else {
      if (a.y > p.y) != (b.y > p.y) {
        StraddlingIsOnSide(p, a, b);
      }
      LevelNotCrossed(p, a, b);
    }
  }

  lemma LevelNotCrossed(p: Spot, a: Spot, b: Spot)
    ensures (a.y > p.y) == (b.y > p.y) ==> !Crosses(At(p), At(a), At(b))
  {
  }

  lemma OneMoreSide(p: Spot, spots: seq<Spot>, n: nat)
    requires n < |spots|
    ensures |RaySides(p, spots, n + 1)| ==
      |RaySides(p, spots, n)| + if RayMeets(p, spots[n], spots[Previous(n, |spots|)]) then 1 else 0
  {
    hide RayMeets;
    var before, met := RaySides(p, spots, n), RayMeets(p, spots[n], spots[Previous(n, |spots|)]);
    assert RaySides(p, spots, n + 1) == if met then before + {n} else before;
  }

  lemma {:induction false} OddRaySides(p: Spot, spots: seq<Spot>, n: nat)
    requires n <= |spots| && Near(p, spots) && !OnOutline(p, spots)
    ensures OddCrossings(At(p), AllAt(spots), n) <==> |RaySides(p, spots, n)| % 2 == 1
  {
    hide RayMeets, CrossesEdge, OnOutline, Near, RaySides;
    if n == 0 {
      NoRaySides(p, spots);
    } else {
      OddRaySides(p, spots, n - 1);
      EdgeCrossedIff(p, spots, n - 1);
      OneMoreSide(p, spots, n - 1);
    }
  }

  lemma NoRaySides(p: Spot, spots: seq<Spot>)
    ensures RaySides(p, spots, 0) == {}
  {
  }

  /** For every polygon on the grid, of any shape, the test is exact as soon as no vertex is repeated at once; a
      repeated vertex puts every point inside. */
  lemma InsideIff(p: Spot, spots: seq<Spot>)
    requires Near(p, spots)
    ensures Inside(At(p), AllAt(spots)) <==> Holds(p, spots) || (|spots| >= 3 && RepeatsVertex(spots))
  {
    hide OnBoundary, OddCrossings, OnOutline, RepeatsVertex, RaySides, Near;
    BoundaryIff(p, spots);
    if !OnOutline(p, spots) {
      OddRaySides(p, spots, |spots|);
    }
  }

  /** The same for any points: with a repeated vertex the tolerance of the segment test accepts everything. */
  lemma RepeatedVertexHoldsAll(p: Point, polygon: seq<Point>, i: nat)
    requires |polygon| >= 3 && i < |polygon| && polygon[i] == polygon[Next(i, |polygon|)]
    ensures Inside(p, polygon)
  {
    assert OnEdge(p, polygon, i);
  }

  // ----- The choice of the ray

  function Mirrored(s: Spot): Spot {
    Spot(-s.x, s.y)
  }

  function AllMirrored(spots: seq<Spot>): (r: seq<Spot>)
    ensures |r| == |spots| && forall i | 0 <= i < |r| :: r[i] == Mirrored(spots[i])
  {
    seq(|spots|, i requires 0 <= i < |spots| => Mirrored(spots[i]))
  }

  lemma TurnMirrored(p: Spot, a: Spot, b: Spot)
    ensures Turn(Mirrored(p), Mirrored(a), Mirrored(b)) == -Turn(p, a, b)
  {
  }

  lemma SideMirrored(p: Spot, a: Spot, b: Spot)
    ensures OnSide(Mirrored(p), Mirrored(a), Mirrored(b)) <==> OnSide(p, a, b)
  {
    hide Turn;
    TurnMirrored(p, a, b);
  }

  /** A side that reaches across the point's height is met by exactly one of the two rays, any other by none. */
  lemma MetByOneRay(p: Spot, a: Spot, b: Spot)
    requires !OnSide(p, a, b)
    ensures (if RayMeets(p, a, b) then 1 else 0) + (if RayMeets(Mirrored(p), Mirrored(a), Mirrored(b)) then 1 else 0) ==
      if (a.y > p.y) != (b.y > p.y) then 1 else 0
  {
    hide Turn, OnSide;
    TurnMirrored(p, a, b);
    if Turn(p, a, b) == 0 && (a.y > p.y) != (b.y > p.y) {
      StraddlingIsOnSide(p, a, b);
    }
  }

  /** Going round the polygon, the side of the height changes an even number of times. */
  lemma {:induction false} RaysTogether(p: Spot, spots: seq<Spot>, n: nat)
    requires 0 < n <= |spots| && !OnOutline(p, spots)
    ensures (|RaySides(p, spots, n)| + |RaySides(Mirrored(p), AllMirrored(spots), n)|) % 2 ==
      if (spots[n - 1].y > p.y) != (spots[|spots| - 1].y > p.y) then 1 else 0
  {
    hide RayMeets, OnOutline, RaySides, OnSide;
    var all := AllMirrored(spots);
    var j := Previous(n - 1, |spots|);
    OneMoreSide(p, spots, n - 1);
    OneMoreSide(Mirrored(p), all, n - 1);
    OffOutline(p, spots, n - 1);
    MetByOneRay(p, spots[n - 1], spots[j]);
    if n == 1 {
      NoRaySides(p, spots);
      NoRaySides(Mirrored(p), all);
    } else {
      RaysTogether(p, spots, n - 1);
    }
  }

  lemma OffOutline(p: Spot, spots: seq<Spot>, i: nat)
    requires i < |spots| && !OnOutline(p, spots)
    ensures !OnSide(p, spots[i], spots[Previous(i, |spots|)])
  {
    hide Turn;
    var j := Previous(i, |spots|);
    NextSmall(j, |spots|);
    assert !OnSide(p, spots[j], spots[i]);
    TurnBack(p, spots[i], spots[j]);
  }

  lemma OutlineMirrored(p: Spot, spots: seq<Spot>)
    ensures OnOutline(Mirrored(p), AllMirrored(spots)) <==> OnOutline(p, spots)
  {
    hide OnSide, Next;
    forall i | 0 <= i < |spots|
      ensures Next(i, |spots|) < |spots|
      ensures OnSide(Mirrored(p), AllMirrored(spots)[i], AllMirrored(spots)[Next(i, |spots|)]) <==>
              OnSide(p, spots[i], spots[Next(i, |spots|)])
    {
      NextSmall(i, |spots|);
      SideMirrored(p, spots[i], spots[Next(i, |spots|)]);
    }
  }

  /** It does not matter whether the ray goes to the right or to the left: mirroring point and polygon changes
      nothing. */
  lemma RayDirection(p: Spot, spots: seq<Spot>)
    ensures Holds(Mirrored(p), AllMirrored(spots)) <==> Holds(p, spots)
  {
    hide OnOutline, RaySides;
    OutlineMirrored(p, spots);
    if |spots| >= 3 && !OnOutline(p, spots) {
      RaysTogether(p, spots, |spots|);
    }
  }
}
