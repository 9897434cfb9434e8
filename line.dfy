/**
  The 2D line primitives of the visibility demo: an infinite Line given by a
  point and a normal, a LineSegment between two endpoints with its derived
  direction, normal and length, and the two intersection tests (segment
  against line, segment against segment).

  Coordinates are exact reals. The C++ intersection tests write their point
  through an out-reference; here they return a Hit whose point is the
  caller's previous value `prev` whenever the source writes nothing.
 */
module Lines {
  import opened Vec

  /** The infinite line of points p with normal . p == normal . origin. */
  datatype Line = Line(origin: Vec2, normal: Vec2)

  datatype LineSegment = LineSegment(p1: Vec2, p2: Vec2)

  /** Result of an intersection test: the boolean it returns and the value left in the out-point. */
  datatype Hit = Hit(found: bool, point: Vec2)

  predicate OnLine(line: Line, p: Vec2) {
    Dot(line.normal, p) == Dot(line.normal, line.origin)
  }

  /** The unnormalised edge p2 - p1. */
  function Edge(s: LineSegment): Vec2 {
    Sub(s.p2, s.p1)
  }

  /** The point p1 + t * (p2 - p1); parameters 0 and 1 are the endpoints. */
  function PointAt(s: LineSegment, t: real): Vec2 {
    Add(s.p1, Scale(Edge(s), t))
  }

  ghost predicate OnSegment(s: LineSegment, p: Vec2) {
    exists t :: 0.0 <= t <= 1.0 && p == PointAt(s, t)
  }

  function Reversed(s: LineSegment): LineSegment {
    LineSegment(s.p2, s.p1)
  }

  /** The edges of two segments are parallel (or one of them is zero). */
  predicate EdgesParallel(a: LineSegment, b: LineSegment) {
    PerpDot(Edge(a), Edge(b)) == 0.0
  }

  // ---------------------------------------------------------------- length

  /** The squared Euclidean distance between the endpoints, |p1 - p2|^2. */
  function SquaredLength(s: LineSegment): real {
    Dot(Sub(s.p1, s.p2), Sub(s.p1, s.p2))
  }

  /** The squared length is the squared magnitude of the edge p2 - p1. */
  lemma SquaredLengthOfEdge(s: LineSegment)
    ensures SquaredLength(s) == Dot(Edge(s), Edge(s))
  {
    assert Sub(s.p1, s.p2) == Neg(Edge(s));
    DotNeg(Edge(s));
  }

  /** The squared length is never negative. */
  lemma SquaredLengthNonNegative(s: LineSegment)
    ensures SquaredLength(s) >= 0.0
  {
    SquaredLengthOfEdge(s);
    DotSelf(Edge(s));
  }

  /** The squared length of a segment with distinct endpoints is positive. */
  lemma SquaredLengthPositive(s: LineSegment)
    requires s.p1 != s.p2
    ensures SquaredLength(s) > 0.0
  {
    var e := Edge(s);
    assert e.x != 0.0 || e.y != 0.0;
    DotSelf(e);
    assert Dot(e, e) > 0.0;
    SquaredLengthOfEdge(s);
  }

  /**
    L is the segment's length(): the non-negative square root of the squared
    distance between its endpoints. Reals carry no square root, so the length
    is named by this relation instead of being computed.
   */
  predicate IsLength(s: LineSegment, L: real) {
    L >= 0.0 && L * L == SquaredLength(s)
  }

  /** length() names one value: two lengths of the same segment coincide. */
  lemma {:induction false} LengthUnique(s: LineSegment, L1: real, L2: real)
    requires IsLength(s, L1) && IsLength(s, L2)
    ensures L1 == L2
  {
    assert (L1 - L2) * (L1 + L2) == L1 * L1 - L2 * L2 == 0.0;
    ZeroProduct(L1 - L2, L1 + L2);
  }

  /** Swapping the endpoints leaves the length unchanged. */
  lemma LengthOfReversed(s: LineSegment, L: real)
    ensures IsLength(Reversed(s), L) <==> IsLength(s, L)
  {
    SquaredLengthOfEdge(s);
  }

  /** A segment has positive length exactly when its endpoints differ. */
  lemma LengthPositive(s: LineSegment, L: real)
    requires IsLength(s, L)
    ensures L > 0.0 <==> s.p1 != s.p2
  {
    if s.p1 == s.p2 {
      calc {
        L * L;
        SquaredLength(s);
      == { assert Sub(s.p1, s.p2) == Vec2(0.0, 0.0); }
        0.0;
      }
      ZeroProduct(L, L);
    }
    if L == 0.0 {
      calc {
        SquaredLength(s);
        L * L;
        0.0;
      }
      if s.p1 != s.p2 {
        SquaredLengthPositive(s);
      }
    }
  }

  // ---------------------------------------------------------------- normal

  /**
    normal(): the cross product of (p2 - p1, 0) with the z axis, which is the
    edge turned a quarter turn clockwise, (dy, -dx).
   */
  function Normal(s: LineSegment): (n: Vec2)
    ensures n == Vec2(Edge(s).y, -Edge(s).x)
  {
    var c := Cross3(Vec3(Edge(s).x, Edge(s).y, 0.0), Vec3(0.0, 0.0, 1.0));
    Vec2(c.x, c.y)
  }

  /**
    The normal is perpendicular to the edge, lies clockwise of it, and is as
    long as the segment (so it is not normalised).
   */
  lemma NormalGeometry(s: LineSegment)
    ensures Dot(Normal(s), Edge(s)) == 0.0
    ensures PerpDot(Edge(s), Normal(s)) == -SquaredLength(s)
    ensures Dot(Normal(s), Normal(s)) == SquaredLength(s)
  {
    var e := Edge(s);
    SquaredLengthOfEdge(s);
    DotNeg(e);
    calc {
      Dot(Normal(s), e);
      e.y * e.x + (-e.x) * e.y;
      0.0;
    }
    calc {
      PerpDot(e, Normal(s));
      e.x * (-e.x) - e.y * e.y;
      -(e.x * e.x + e.y * e.y);
    }
    calc {
      Dot(Normal(s), Normal(s));
      e.y * e.y + (-e.x) * (-e.x);
      e.x * e.x + e.y * e.y;
    }
  }

  /** The length squared equals the normal's squared magnitude; the normal is a unit vector only for a unit segment. */
  lemma LengthIsNormalMagnitude(s: LineSegment, L: real)
    requires IsLength(s, L)
    ensures L * L == Dot(Normal(s), Normal(s))
    ensures Dot(Normal(s), Normal(s)) == 1.0 <==> L == 1.0
  {
    NormalGeometry(s);
    if L * L == 1.0 {
      assert (L - 1.0) * (L + 1.0) == 0.0;
      ZeroProduct(L - 1.0, L + 1.0);
    }
  }

  // ------------------------------------------------------------- direction

  /**
    direction(): the edge divided by the segment's length L, which must be
    positive (a zero edge has no direction).
   */
  function Direction(s: LineSegment, L: real): Vec2
    requires L > 0.0 && IsLength(s, L)
  {
    Scale(Edge(s), 1.0 / L)
  }

  /** direction() is a unit vector parallel to the edge and pointing the same way. */
  lemma DirectionIsUnit(s: LineSegment, L: real)
    requires L > 0.0 && IsLength(s, L)
    ensures Dot(Direction(s, L), Direction(s, L)) == 1.0
    ensures PerpDot(Direction(s, L), Edge(s)) == 0.0
    ensures Dot(Direction(s, L), Edge(s)) == L
  {
    var e, k := Edge(s), 1.0 / L;
    var d := Direction(s, L);
    SquaredLengthOfEdge(s);
    assert k * L == 1.0;
    calc {
      Dot(d, d);
      (e.x * k) * (e.x * k) + (e.y * k) * (e.y * k);
      (k * k) * (e.x * e.x + e.y * e.y);
      (k * k) * (L * L);
      (k * L) * (k * L);
      1.0;
    }
    calc {
      PerpDot(d, e);
      (e.x * k) * e.y - (e.y * k) * e.x;
      0.0;
    }
    calc {
      Dot(d, e);
      (e.x * k) * e.x + (e.y * k) * e.y;
      k * (e.x * e.x + e.y * e.y);
      k * (L * L);
      (k * L) * L;
      L;
    }
  }

  // ------------------------------------------------- segment against line

  /**
    intersect(Line) as written: with the edge normalised by L, solve for the
    distance x along the segment at which the line is crossed, write
    p1 + direction * x to the out-point and report 0 <= x <= L. When the line's
    normal is orthogonal to the direction nothing is written.
   */
  function IntersectLineByDirection(s: LineSegment, line: Line, L: real, prev: Vec2): Hit
    requires L > 0.0 && IsLength(s, L)
  {
    var dir := Direction(s, L);
    if Dot(line.normal, dir) == 0.0 then Hit(false, prev)
    else
      var d := Dot(line.normal, line.origin);
      var x := (d - Dot(line.normal, s.p1)) / Dot(line.normal, dir);
      Hit(0.0 <= x && x <= L, Add(s.p1, Scale(dir, x)))
  }

  /**
    The parameter t at which the segment's supporting line meets `line`:
    the point is PointAt(s, t).
   */
  function Crossing(s: LineSegment, line: Line): real
    requires Dot(line.normal, Edge(s)) != 0.0
  {
    (Dot(line.normal, line.origin) - Dot(line.normal, s.p1)) / Dot(line.normal, Edge(s))
  }

  /**
    intersect(Line), reparametrised by t = x / L so that no square root is
    needed: parallel means n . (p2 - p1) == 0, and the crossing is accepted for
    0 <= t <= 1, both endpoints included. When not parallel the point is
    written even if the crossing lies outside the segment.
   */
  function IntersectLine(s: LineSegment, line: Line, prev: Vec2): (r: Hit)
    ensures Dot(line.normal, Edge(s)) == 0.0 ==> r == Hit(false, prev)
    ensures Dot(line.normal, Edge(s)) != 0.0 ==> OnLine(line, r.point)
  {
    if Dot(line.normal, Edge(s)) == 0.0 then Hit(false, prev)
    else
      var t := Crossing(s, line);
      DotAlong(line.normal, s.p1, Edge(s), t);
      Hit(0.0 <= t <= 1.0, PointAt(s, t))
  }

  /** The line-by-line form and the square-root-free form agree for every length. */
  lemma {:induction false} IntersectLineByDirectionAgrees(s: LineSegment, line: Line, L: real, prev: Vec2)
    requires L > 0.0 && IsLength(s, L)
    ensures IntersectLineByDirection(s, line, L, prev) == IntersectLine(s, line, prev)
  {
    var n, e := line.normal, Edge(s);
    var k := 1.0 / L;
    var dir := Direction(s, L);
    var ne := Dot(n, e);
    assert k > 0.0;
    assert Dot(n, dir) == k * ne by {
      DotScale(n, e, k);
    }
    if ne != 0.0 {
      NonZeroProduct(k, ne);
      var num := Dot(n, line.origin) - Dot(n, s.p1);
      var t := Crossing(s, line);
      var x := num / Dot(n, dir);
      Reparametrised(L, k, ne, num);
      assert x == L * t && k * x == t;
      assert Scale(dir, x) == Scale(e, t) by {
        assert (e.x * k) * x == e.x * (k * x);
        assert (e.y * k) * x == e.y * (k * x);
      }
      Scaled(L, t);
    }
  }

  /** The distance x along the unit direction is L times the edge parameter t. */
  lemma {:induction false} Reparametrised(L: real, k: real, ne: real, num: real)
    requires L > 0.0 && k == 1.0 / L && ne != 0.0
    ensures num / (k * ne) == L * (num / ne)
    ensures k * (num / (k * ne)) == num / ne
  {
    var x, t := num / (k * ne), num / ne;
    assert k * L == 1.0;
    assert x * (k * ne) == num;
    assert t * ne == num;
    assert (x * k - t) * ne == 0.0;
    ZeroProduct(x * k - t, ne);
    assert x == x * (k * L) == (x * k) * L;
  }

  /** For positive L, L * t lies in [0, L] exactly when t lies in [0, 1]. */
  lemma Scaled(L: real, t: real)
    requires L > 0.0
    ensures (0.0 <= L * t && L * t <= L) <==> (0.0 <= t <= 1.0)
  {
    assert L * t - L == L * (t - 1.0);
    if t < 0.0 {
      assert L * (-t) > 0.0;
    }
    if t > 1.0 {
      assert L * (t - 1.0) > 0.0;
    }
  }

  /**
    A reported hit lies on both the line and the segment, and only a line that
    is not parallel to the segment can be hit.
   */
  lemma IntersectLineSound(s: LineSegment, line: Line, prev: Vec2)
    ensures IntersectLine(s, line, prev).found ==>
      Dot(line.normal, Edge(s)) != 0.0 &&
      OnLine(line, IntersectLine(s, line, prev).point) &&
      OnSegment(s, IntersectLine(s, line, prev).point)
  {
    if IntersectLine(s, line, prev).found {
      var t := Crossing(s, line);
      assert 0.0 <= t <= 1.0 && IntersectLine(s, line, prev).point == PointAt(s, t);
    }
  }

  /**
    Every point of the segment that lies on a non-parallel line is reported,
    and it is exactly the point written.
   */
  lemma {:induction false} IntersectLineComplete(s: LineSegment, line: Line, prev: Vec2, t: real)
    requires Dot(line.normal, Edge(s)) != 0.0
    requires 0.0 <= t <= 1.0 && OnLine(line, PointAt(s, t))
    ensures IntersectLine(s, line, prev) == Hit(true, PointAt(s, t))
  {
    var n, e := line.normal, Edge(s);
    DotAlong(n, s.p1, e, t);
    assert t * Dot(n, e) == Dot(n, line.origin) - Dot(n, s.p1);
    assert Crossing(s, line) == t;
  }

  /** Both endpoints are included: a non-parallel line through p1 or p2 hits there. */
  lemma IntersectLineIncludesEndpoints(s: LineSegment, line: Line, prev: Vec2)
    requires Dot(line.normal, Edge(s)) != 0.0
    ensures OnLine(line, s.p1) ==> IntersectLine(s, line, prev) == Hit(true, s.p1)
    ensures OnLine(line, s.p2) ==> IntersectLine(s, line, prev) == Hit(true, s.p2)
  {
    assert PointAt(s, 0.0) == s.p1;
    assert PointAt(s, 1.0) == s.p2;
    if OnLine(line, s.p1) {
      IntersectLineComplete(s, line, prev, 0.0);
    }
    if OnLine(line, s.p2) {
      IntersectLineComplete(s, line, prev, 1.0);
    }
  }

  /**
    What the caller held in the out-point matters only in the parallel case:
    the boolean never depends on it, and a non-parallel test overwrites it even
    when it reports false.
   */
  lemma IntersectLineOverwrites(s: LineSegment, line: Line, p: Vec2, q: Vec2)
    ensures IntersectLine(s, line, p).found == IntersectLine(s, line, q).found
    ensures Dot(line.normal, Edge(s)) != 0.0 ==>
      IntersectLine(s, line, p).point == IntersectLine(s, line, q).point
  {
  }

  /** A zero-length segment never intersects anything and writes nothing. */
  lemma DegenerateSegmentMisses(s: LineSegment, line: Line, prev: Vec2)
    requires s.p1 == s.p2
    ensures IntersectLine(s, line, prev) == Hit(false, prev)
  {
    assert Edge(s) == Vec2(0.0, 0.0);
  }

  // ---------------------------------------------- segment against segment

  /** The infinite line through s.p1 with normal normal(), as built for the segment test. */
  function SupportLine(s: LineSegment): (l: Line)
    ensures OnLine(l, s.p1) && OnLine(l, s.p2)
  {
    NormalGeometry(s);
    Line(s.p1, Normal(s))
  }

  /** The support line of a non-degenerate segment holds exactly the points p1 + t * (p2 - p1). */
  lemma {:induction false} SupportLineExact(s: LineSegment, p: Vec2)
    requires s.p1 != s.p2
    ensures OnLine(SupportLine(s), p) <==> exists t :: p == PointAt(s, t)
  {
    var e, w := Edge(s), Sub(p, s.p1);
    NormalGeometry(s);
    forall t | p == PointAt(s, t)
      ensures OnLine(SupportLine(s), p)
    {
      DotAlong(Normal(s), s.p1, e, t);
    }
    if OnLine(SupportLine(s), p) {
      assert e.y * w.x == e.x * w.y;
      if e.x != 0.0 {
        var t := w.x / e.x;
        assert w.y == t * e.y by {
          assert (w.y - t * e.y) * e.x == 0.0;
          ZeroProduct(w.y - t * e.y, e.x);
        }
        assert p == PointAt(s, t);
      } else {
        assert e.y != 0.0;
        var t := w.y / e.y;
        assert w.x == t * e.x by {
          assert (w.x - t * e.x) * e.y == 0.0;
          ZeroProduct(w.x - t * e.x, e.y);
        }
        assert p == PointAt(s, t);
      }
    }
  }

  /** Every point p1 + t * (p2 - p1) lies on the segment's support line. */
  lemma PointAtIsOnSupportLine(s: LineSegment, t: real)
    ensures OnLine(SupportLine(s), PointAt(s, t))
  {
    NormalGeometry(s);
    DotAlong(Normal(s), s.p1, Edge(s), t);
  }

  /** Every point of a segment lies on its support line. */
  lemma OnSegmentIsOnSupportLine(s: LineSegment, p: Vec2)
    requires OnSegment(s, p)
    ensures OnLine(SupportLine(s), p)
  {
    var t :| 0.0 <= t <= 1.0 && p == PointAt(s, t);
    PointAtIsOnSupportLine(s, t);
  }

  /**
    intersect(LineSegment): the short-circuit conjunction of "this segment
    crosses the other's support line" and "the other segment crosses this
    one's support line". The second test runs only after the first succeeds
    and then overwrites the point the first one wrote.
   */
  function IntersectSegment(a: LineSegment, b: LineSegment, prev: Vec2): (r: Hit)
    ensures EdgesParallel(a, b) ==> r == Hit(false, prev)
  {
    var first := IntersectLine(a, SupportLine(b), prev);
    if !first.found then first
    else IntersectLine(b, SupportLine(a), first.point)
  }

  /** Each segment's normal meets the other's edge in the same perp-dot, up to sign. */
  lemma NormalAgainstEdge(a: LineSegment, b: LineSegment)
    ensures Dot(Normal(b), Edge(a)) == PerpDot(Edge(a), Edge(b))
    ensures Dot(Normal(a), Edge(b)) == -PerpDot(Edge(a), Edge(b))
    ensures PerpDot(Normal(a), Normal(b)) == PerpDot(Edge(a), Edge(b))
  {
    var ea, eb := Edge(a), Edge(b);
    calc {
      Dot(Normal(b), ea);
      eb.y * ea.x + (-eb.x) * ea.y;
      ea.x * eb.y - ea.y * eb.x;
    }
    calc {
      Dot(Normal(a), eb);
      ea.y * eb.x + (-ea.x) * eb.y;
      -(ea.x * eb.y - ea.y * eb.x);
    }
    calc {
      PerpDot(Normal(a), Normal(b));
      ea.y * (-eb.x) - (-ea.x) * eb.y;
      ea.x * eb.y - ea.y * eb.x;
    }
  }

  /**
    A reported hit is a common point of the two segments, and the segments are
    not parallel.
   */
  lemma {:induction false} IntersectSegmentSound(a: LineSegment, b: LineSegment, prev: Vec2)
    ensures IntersectSegment(a, b, prev).found ==>
      !EdgesParallel(a, b) &&
      OnSegment(a, IntersectSegment(a, b, prev).point) &&
      OnSegment(b, IntersectSegment(a, b, prev).point)
  {
    var r := IntersectSegment(a, b, prev);
    if r.found {
      NormalAgainstEdge(a, b);
      var la, lb := SupportLine(a), SupportLine(b);
      var first := IntersectLine(a, lb, prev);
      var u := Crossing(a, lb);
      assert first.found && first.point == PointAt(a, u) && 0.0 <= u <= 1.0;
      var v := Crossing(b, la);
      assert r.point == PointAt(b, v) && 0.0 <= v <= 1.0;
      // both points lie on both support lines, which are not parallel
      DotAlong(la.normal, a.p1, Edge(a), u);
      DotAlong(lb.normal, b.p1, Edge(b), v);
      assert OnLine(la, first.point) && OnLine(lb, first.point);
      assert OnLine(la, r.point) && OnLine(lb, r.point);
      NonParallelLinesMeetOnce(la.normal, lb.normal, first.point, r.point);
    }
  }

  /**
    Two non-parallel segments sharing a point are reported as intersecting,
    at that point, whatever the out-point held before.
   */
  lemma {:induction false} IntersectSegmentComplete(a: LineSegment, b: LineSegment, prev: Vec2, u: real, v: real)
    requires !EdgesParallel(a, b)
    requires 0.0 <= u <= 1.0 && 0.0 <= v <= 1.0
    requires PointAt(a, u) == PointAt(b, v)
    ensures IntersectSegment(a, b, prev) == Hit(true, PointAt(a, u))
  {
    NormalAgainstEdge(a, b);
    NormalGeometry(a);
    NormalGeometry(b);
    var la, lb := SupportLine(a), SupportLine(b);
    DotAlong(la.normal, a.p1, Edge(a), u);
    DotAlong(lb.normal, b.p1, Edge(b), v);
    IntersectLineComplete(a, lb, prev, u);
    IntersectLineComplete(b, la, PointAt(a, u), v);
  }

  /**
    a.intersect(b) and b.intersect(a) agree on the boolean, and when they
    report a hit they write the same point.
   */
  lemma {:induction false} IntersectSegmentSymmetric(a: LineSegment, b: LineSegment, p: Vec2, q: Vec2)
    ensures IntersectSegment(a, b, p).found == IntersectSegment(b, a, q).found
    ensures IntersectSegment(a, b, p).found ==>
      IntersectSegment(a, b, p).point == IntersectSegment(b, a, q).point
  {
    var fa := IntersectLine(a, SupportLine(b), p).found;
    var fb := IntersectLine(b, SupportLine(a), q).found;
    IntersectLineOverwrites(a, SupportLine(b), p, IntersectLine(b, SupportLine(a), q).point);
    IntersectLineOverwrites(b, SupportLine(a), q, IntersectLine(a, SupportLine(b), p).point);
    assert IntersectSegment(a, b, p).found == (fa && fb);
    assert IntersectSegment(b, a, q).found == (fb && fa);
    if IntersectSegment(a, b, p).found {
      var r1, r2 := IntersectSegment(a, b, p).point, IntersectSegment(b, a, q).point;
      IntersectSegmentSound(a, b, p);
      IntersectSegmentSound(b, a, q);
      OnSegmentIsOnSupportLine(a, r1);
      OnSegmentIsOnSupportLine(b, r1);
      OnSegmentIsOnSupportLine(a, r2);
      OnSegmentIsOnSupportLine(b, r2);
      NormalAgainstEdge(a, b);
      NonParallelLinesMeetOnce(Normal(a), Normal(b), r1, r2);
    }
  }

  /**
    When the segments are not parallel the out-point is always overwritten: by
    the first test if it fails, else by the second. Either write is a point of
    the tested segment's line that lies on the other's support line, so the
    point left behind is the one crossing of the two support lines.
   */
  lemma {:induction false} IntersectSegmentOverwrites(a: LineSegment, b: LineSegment, p: Vec2, q: Vec2)
    requires !EdgesParallel(a, b)
    ensures IntersectSegment(a, b, p) == IntersectSegment(a, b, q)
    ensures OnLine(SupportLine(a), IntersectSegment(a, b, p).point) &&
            OnLine(SupportLine(b), IntersectSegment(a, b, p).point)
  {
    NormalAgainstEdge(a, b);
    var first := IntersectLine(a, SupportLine(b), p);
    PointAtIsOnSupportLine(a, Crossing(a, SupportLine(b)));
    if first.found {
      PointAtIsOnSupportLine(b, Crossing(b, SupportLine(a)));
    }
  }

  /**
    For non-parallel segments a.intersect(b) and b.intersect(a) leave the
    same boolean and the same out-point, whatever either out-point held.
   */
  lemma {:induction false} IntersectSegmentCommutes(a: LineSegment, b: LineSegment, p: Vec2, q: Vec2)
    requires !EdgesParallel(a, b)
    ensures IntersectSegment(a, b, p) == IntersectSegment(b, a, q)
  {
    var r1, r2 := IntersectSegment(a, b, p), IntersectSegment(b, a, q);
    IntersectSegmentSymmetric(a, b, p, q);
    NormalAgainstEdge(a, b);
    assert !EdgesParallel(b, a);
    IntersectSegmentOverwrites(a, b, p, p);
    IntersectSegmentOverwrites(b, a, q, q);
    NonParallelLinesMeetOnce(Normal(a), Normal(b), r1.point, r2.point);
  }

  // ------------------------------------------------------------ examples

  /** Overlapping collinear segments are reported as not intersecting. */
  lemma CollinearOverlapMisses(a: LineSegment, b: LineSegment, prev: Vec2)
    requires a == LineSegment(Vec2(0.0, 0.0), Vec2(2.0, 0.0))
    requires b == LineSegment(Vec2(1.0, 0.0), Vec2(3.0, 0.0))
    ensures IntersectSegment(a, b, prev) == Hit(false, prev)
  {
    assert Edge(a) == Vec2(2.0, 0.0) && Edge(b) == Vec2(2.0, 0.0);
    assert EdgesParallel(a, b);
  }
}
