# Line geometry of the 2D visibility demo

This project models the line primitives of a small 2D visibility demo
(`src/line.cpp`):

- a `Line` is an origin point plus a normal vector;
- a `LineSegment` holds two endpoints `p1`, `p2`;
- a segment has a `direction()`, a `normal()` and a `length()`;
- `intersect(Line, &point)` reports whether the segment crosses an infinite
  line, writing the crossing to an out-parameter;
- `intersect(LineSegment, &point)` reports whether two segments cross, by
  testing each segment against the other's support line (the line through its
  `p1` with its normal).

The rest of the repository (`src/main.cpp`) does not use these classes: it
opens a window, draws a full-screen quad and shades each pixel with a GLSL
shader that carries its own segment test against a fixed list of seven
segments. It is not part of this model.

Modules:

- `vec.dfy` (`Vec`): exact 2- and 3-component vectors over `real`, the dot
  product, the 2D perp-dot product and the 3D cross product, with small
  algebraic lemmas.
- `line.dfy` (`Lines`): the `Line`, `LineSegment` and `Hit` datatypes, the
  segment operations and their properties.

Modelling choices:

- Coordinates are exact reals rather than single-precision floats.
- There is no square root, so the length of a segment is the relation
  `IsLength(s, L)`: `L >= 0` and `L * L` is the squared distance between the
  endpoints. `Direction` and the literal form of `intersect(Line)` take such
  an `L` as a parameter.
- The out-parameter of the C++ code becomes the `Hit(found, point)` result. It
  takes a `prev` point, the out-parameter's value before the call, and returns
  it unchanged when the code writes nothing.
- `intersect(Line)` exists in two forms:
  - `IntersectLineByDirection` follows the code line by line (normalised
    direction, distance `x`, test `0 <= x <= L`);
  - `IntersectLine` uses the segment parameter `t = x / L`, so that it needs
    no length;
  - `IntersectLineByDirectionAgrees` proves the two equal for every valid `L`.
  The rest of the model uses `IntersectLine`.
- Both endpoints are accepted. The code tests `x >= 0` and `x <= length()`, so
  the interval is closed.
- The constructors `Line(origin, normal)` (src/line.cpp:5-8) and
  `LineSegment(p1, p2)` (src/line.cpp:10-13) only store their arguments. They
  are the datatype constructors `Lines.Line` and `Lines.LineSegment`.
- The constructor `LineSegment(p1, p2)` (src/line.cpp:10-13) does not reject
  `p1 == p2`, and the model accepts any two points too.
  `DegenerateSegmentMisses` states what the model then does; "## Left out"
  says where that differs from the float code.

## Model

| member | source | states |
|---|---|---|
| Lines.Normal | src/line.cpp:20-24 | the cross product of `(p2 - p1, 0)` with the z axis, projected to the plane, is `(e.y, -e.x)` for the edge `e = p2 - p1` |
| Lines.NormalGeometry | src/line.cpp:20-24 | the normal is orthogonal to the edge, has the edge's squared magnitude, and lies clockwise of it (perp-dot of edge and normal is minus the squared length) |
| Lines.SquaredLength | src/line.cpp:26-29 | the squared distance between `p1` and `p2`, measured from `p1 - p2` as `length()` does; its properties are the lemmas below |
| Lines.IsLength | src/line.cpp:26-29 | `L` is `length()`: a non-negative real whose square is the squared distance between the endpoints |
| Lines.SquaredLengthNonNegative | src/line.cpp:26-29 | the squared length is never negative, so `length()` exists |
| Lines.SquaredLengthPositive | src/line.cpp:26-29 | the squared length of a segment with distinct endpoints is positive |
| Lines.SquaredLengthOfEdge | src/line.cpp:26-29 | the squared length measured from `p1 - p2` equals the squared magnitude of the edge `p2 - p1` |
| Lines.LengthUnique | src/line.cpp:26-29 | a segment has at most one length |
| Lines.LengthOfReversed | src/line.cpp:26-29 | a segment and its reversal have the same lengths |
| Lines.LengthPositive | src/line.cpp:26-29 | the length is positive exactly when the endpoints differ |
| Lines.LengthIsNormalMagnitude | src/line.cpp:20-29 | the normal's squared magnitude is the squared length, so the normal is a unit vector exactly when the length is 1 |
| Lines.Direction | src/line.cpp:15-18 | `direction()`: the edge `p2 - p1` divided by the length `L`, defined only for `L > 0`; its properties are in `DirectionIsUnit` |
| Lines.DirectionIsUnit | src/line.cpp:15-18 | for a segment of positive length, the direction has unit magnitude, is parallel to the edge and points along it (its dot with the edge is the length) |
| Lines.IntersectLine | src/line.cpp:31-38 | a line whose normal is orthogonal to the edge is never hit and leaves the out-point as it was; otherwise the written point lies on the line |
| Lines.IntersectLineByDirection | src/line.cpp:31-38 | `intersect(Line)` step by step: nothing written when the normal is orthogonal to `direction()`; otherwise `x` is the distance along the direction to the line, the point `p1 + direction * x` is written and the hit is `0 <= x <= L`; `IntersectLineByDirectionAgrees` relates it to `IntersectLine` |
| Lines.IntersectLineByDirectionAgrees | src/line.cpp:31-38 | the line-by-line form (normalised direction, distance `x` checked against the length) gives the same result and point as the square-root-free form |
| Lines.IntersectLineSound | src/line.cpp:33-37 | a reported hit means the line is not parallel and the point lies both on the line and on the segment |
| Lines.IntersectLineComplete | src/line.cpp:34-37 | every point of the segment on a non-parallel line is found, and is the point reported |
| Lines.IntersectLineIncludesEndpoints | src/line.cpp:37 | a non-parallel line through `p1` or through `p2` is reported as a hit at that endpoint |
| Lines.IntersectLineOverwrites | src/line.cpp:33-36 | whether a hit is found does not depend on the out-point's old value; when not parallel the written point does not either |
| Lines.DegenerateSegmentMisses | src/line.cpp:33-37 | a zero-length segment never hits a line and leaves the out-point unchanged |
| Lines.SupportLine | src/line.cpp:43-44 | the line built from a segment's `p1` and its normal passes through both endpoints |
| Lines.SupportLineExact | src/line.cpp:43-44 | for a segment of positive length, the points of its support line are exactly the points `p1 + t (p2 - p1)` |
| Lines.PointAtIsOnSupportLine | src/line.cpp:43-44 | every point `p1 + t (p2 - p1)` of a segment's line, inside the segment or not, lies on its support line |
| Lines.OnSegmentIsOnSupportLine | src/line.cpp:43-44 | every point of a segment lies on its support line |
| Lines.IntersectSegment | src/line.cpp:40-46 | segments with parallel edges are never reported as crossing, and the out-point is then left unchanged |
| Lines.NormalAgainstEdge | src/line.cpp:43-44 | the dot of one segment's normal with the other's edge is the perp-dot of the two edges, up to sign, and the perp-dot of the two normals equals that of the edges; so a support line is parallel to the other segment exactly when the edges are parallel |
| Lines.IntersectSegmentSound | src/line.cpp:40-46 | a reported crossing means the edges are not parallel and the point lies on both segments |
| Lines.IntersectSegmentComplete | src/line.cpp:40-46 | two non-parallel segments that share a point are reported as crossing at that point |
| Lines.IntersectSegmentSymmetric | src/line.cpp:40-46 | testing `a` against `b` and `b` against `a` gives the same answer, and the same point when a crossing is found |
| Lines.IntersectSegmentOverwrites | src/line.cpp:40-46 | for non-parallel segments the result does not depend on the out-point's old value, and the point written lies on both support lines, i.e. it is their one crossing, even when no crossing is reported |
| Lines.IntersectSegmentCommutes | src/line.cpp:40-46 | for non-parallel segments `a.intersect(b)` and `b.intersect(a)` give the same boolean and leave the same out-point, whatever the out-points held before |
| Lines.CollinearOverlapMisses | src/line.cpp:43 | the overlapping collinear segments `(0,0)-(2,0)` and `(1,0)-(3,0)` are reported as not crossing |
| Vec.NonParallelLinesMeetOnce | src/line.cpp:40-46 | two lines with non-parallel normals share at most one point, which is why both parametrisations of a segment crossing name the same point |

## Left out

- Floating point: rounding and overflow are not modelled.
- Lines.DegenerateSegmentMisses: for `p1 == p2` the float code normalises a zero vector to NaN, so the test at src/line.cpp:33 is false, NaN is written to the out-point at line 36 and false is returned at line 37. The model returns false too, but keeps the old out-point `prev`. The same holds for `Lines.IntersectSegment` when its first segment has zero length.
- Aliasing: the model takes the out-point to be separate from the segments. `p1` and `p2` are public fields (src/line.hpp:15), so a call such as `s.intersect(line, s.p2)` is legal C++. There the write at src/line.cpp:36 changes the endpoint that `length()` reads at line 37, and in the segment overload the write at line 43 changes the `p1` and `normal()` that line 44 reads. `Lines.IntersectLine` and `Lines.IntersectSegment` do not capture such calls; no caller in the repository makes one.
- `length()` and `direction()` as computed values: both need a square root. `IsLength` relates a segment to its length instead, and `Direction` takes that length as an argument.
- Lines.IntersectSegment: the two segment parametrisations are exact here, so they name one point. The float code may write two points that differ by rounding.
- `src/main.cpp` is not part of this model: GLFW window and key handling, shader compilation, vertex buffers, the render loop, and the per-pixel GLSL visibility test with its own segment arithmetic. It does not use `Line` or `LineSegment`.
- `src/line.hpp` only declares the classes; it has no behaviour of its own.
