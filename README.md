# Cohen–Sutherland clipping and mesh geometry of a small software 3D engine

This project models the two geometric cores of a small SDL-based 3D engine in
Dafny and proves properties of the model.

- **Line clipping** (`clip.dfy`, module `CohenSutherland`, with
  `intmath.dfy`, module `IntMath`). The engine clips each screen-space
  segment against the viewport before it draws it.
  - A point gets a 4-bit region code, one bit each for LEFT, RIGHT, BOTTOM
    and TOP.
  - The clipping loop accepts a segment when both codes are zero. It rejects
    one when the codes share a bit.
  - Otherwise it moves an outside endpoint onto one window bound. It picks
    endpoint 1 first, and tries the bounds in priority TOP, BOTTOM, RIGHT,
    LEFT. The new coordinate comes from the line equation, using C++ integer
    division, which truncates toward zero.
  - `Clip` is the recursive specification of the clipping loop. The method
    `CohenSutherlandClip` is the source's `while (true)` loop over its own
    variables, and its proof shows it computes `Clip`.
  - The proved properties:
    - both endpoints of an accepted result lie inside the window;
    - the result lies inside the bounding box of the input;
    - an endpoint that starts inside is never moved;
    - a second clip of an accepted result changes nothing;
    - no step divides by zero;
    - every step's new point lies on the chosen bound and on the segment's
      line, up to the error from truncation;
    - the loop terminates;
    - on coordinates within ±23170, every coordinate, factor, product and
      divisor the loop forms fits a 32-bit `int`.
- **Mesh geometry** (`geometry.dfy`, module `Geometry`).
  - Points and triangles are values. Their compound assignments `+=`, `-=`
    and `*=` (with a point on the right) are member functions that return
    the updated value.
  - A mesh is a class with the source's fields: `tris`, `origin`, `red`,
    `green` and `blue`.
  - The scaling constructor and `set_origin`, `translate` and `scale` are
    loops that rewrite `tris` in place. Each one is proved to leave the mesh
    in the state given by an abstract function of its old state.
  - Lemmas say what those functions mean:
    - `set_origin` keeps the shape relative to the origin, is idempotent, and
      is a translation by the origin's displacement;
    - translations compose, and translating by `-p` undoes translating by
      `p`;
    - `scale` maps each vertex v to origin + s·(v − origin), and scaling by 1
      changes nothing;
    - no transform changes the number or order of the triangles, or the
      colours.
  - `MakeCube` builds the twelve-triangle unit cube. Each of its triangles
    lies on the face its comment names. Every vertex of the built mesh is the
    origin plus or minus half the scale in each coordinate.

Coordinates of the geometry part are exact `real`s. Clipping works on
unbounded `int`s. `ClipFitsInt32` states when the source's 32-bit arithmetic
agrees with them.

## Model

| member | source | states |
|---|---|---|
| `CohenSutherland.ComputeOutcode` | src/include/CohenSutherlandClip.hpp:18-39 | LEFT is set iff x < xMin. RIGHT is set iff x is not left of the window and x > xMax. BOTTOM and TOP follow the same rule for y. LEFT and RIGHT are never both set, nor BOTTOM and TOP. The code is INSIDE iff the point lies in the closed window. |
| `IntMath.TruncDiv` | src/include/CohenSutherlandClip.hpp:75-87 | The C++ `int /` of the four intersection formulas. It truncates toward zero, unlike Dafny's Euclidean `/`. Its defining property is stated by `IntMath.TruncDivSpec`. |
| `IntMath.TruncDivSpec` | src/include/CohenSutherlandClip.hpp:75-87 | The `/` of the intersection formulas truncates toward zero. The remainder a − (a/b)·b has the sign of a and is smaller than \|b\|. \|a/b\|·\|b\| ≤ \|a\|. |
| `IntMath.ScaledQuotientBetween` | src/include/CohenSutherlandClip.hpp:75-87 | When n/m lies in [0, 1], the truncated quotient (d·n)/m lies between 0 and d. This is why the new coordinate stays between the segment's endpoints. |
| `CohenSutherland.CodeOut` | src/include/CohenSutherlandClip.hpp:63-68 | The chosen code is one of the two endpoints' codes. When endpoint 1 is outside, it is endpoint 1's code. It is INSIDE only when both endpoints are inside. |
| `CohenSutherland.PendingDivisorNonZero` | src/include/CohenSutherlandClip.hpp:51-89 | When neither the accept nor the reject test fires, the chosen code is not INSIDE. The divisor of the branch that code selects (y2 − y1 for TOP/BOTTOM, x2 − x1 for RIGHT/LEFT) is non-zero. |
| `CohenSutherland.Intersection` | src/include/CohenSutherlandClip.hpp:70-89 | The computed point lies on the bound chosen in priority TOP, BOTTOM, RIGHT, LEFT. Its cross product with the segment's direction is smaller than the divisor in magnitude: it is on the line up to truncation. |
| `CohenSutherland.Step` | src/include/CohenSutherlandClip.hpp:58-101 | The outside endpoint, endpoint 1 if it is outside, moves onto its chosen bound and near the line. The other endpoint is unchanged. For a proper window the new segment lies in the old one's box and the L1 length strictly decreases. |
| `CohenSutherland.StepWithinBox` | src/include/CohenSutherlandClip.hpp:70-101 | The intersection lies between the endpoints on both axes. It differs from the endpoint it replaces, so the loop makes progress. |
| `CohenSutherland.Clip` | src/include/CohenSutherlandClip.hpp:50-109 | An accepted result has both endpoints inside the window and lies within the input segment's bounding box. |
| `CohenSutherland.CohenSutherlandClip` | src/include/CohenSutherlandClip.hpp:41-110 | The source loop, with its code1/code2 updates and break-based exits, returns exactly `Clip` of its input. |
| `CohenSutherland.ClipTrivialAccept` | src/include/CohenSutherlandClip.hpp:51-54 | A segment with both endpoints inside the window comes back unchanged. |
| `CohenSutherland.ClipTrivialReject` | src/include/CohenSutherlandClip.hpp:55-57 | A segment whose endpoint codes share a bit is rejected. |
| `CohenSutherland.ClipKeepsInsideEndpoints` | src/include/CohenSutherlandClip.hpp:63-101 | An endpoint that starts inside the window is never replaced. Only outside endpoints are picked. |
| `CohenSutherland.ClipIdempotent` | src/include/CohenSutherlandClip.hpp:41-110 | Clipping an accepted result again gives the same result. |
| `CohenSutherland.NumeratorFitsInt32` | src/include/CohenSutherlandClip.hpp:75-87 | With all coordinates within ±23170, each product (x2 − x1)·(yMax − y1) and the like fits a 32-bit signed int. |
| `CohenSutherland.StepFitsInt32` | src/include/CohenSutherlandClip.hpp:70-101 | A step on small coordinates forms 32-bit numerators and divisors and leaves the coordinates small. |
| `CohenSutherland.ClipFitsInt32` | src/include/CohenSutherlandClip.hpp:41-110 | On small inputs, every segment the loop passes through keeps coordinates within ±23170. So every factor such as x2 − x1 or yMax − y1, and every new coordinate such as x1 + q, fits a 32-bit `int`. Every product and divisor each step forms fits one too. No step overflows, so the unbounded model is the source's arithmetic. |
| `CohenSutherland.ClipExampleInside` | src/include/CohenSutherlandClip.hpp:51-54 | On the window [0,10]², the segment (2,2)-(8,8), which lies inside the window, is returned unchanged. |
| `CohenSutherland.ClipExampleOutside` | src/include/CohenSutherlandClip.hpp:55-57 | On the window [0,10]², the segment (-5,-5)-(-1,-1), which lies left of and below the window, is rejected. |
| `CohenSutherland.ClipExampleLeftEdge` | src/include/CohenSutherlandClip.hpp:85-96 | On the window [0,10]², the segment (-5,5)-(5,5) that crosses the left edge is cut at x = 0, to (0,5)-(5,5). |
| `CohenSutherland.ClipExampleDiagonal` | src/include/CohenSutherlandClip.hpp:41-110 | On the window [0,10]², the diagonal (-5,-5)-(15,15) is cut to (0,0)-(10,10). Endpoint 1 moves first, then endpoint 2. |
| `Geometry.PointAddSubInverse` | src/include/Triangle.hpp:42-56 | Point `+=` then `-=` by the same point restores it, and the other order does too. `+=` is commutative. |
| `Geometry.Point.Add` | src/include/Triangle.hpp:42-48 | Point `+=`: componentwise sum. `Geometry.PointAddSubInverse` gives its laws, and `Geometry.PointMulLaws` its distribution under `*=`. |
| `Geometry.Point.Sub` | src/include/Triangle.hpp:50-56 | Point `-=`: componentwise difference. `Geometry.PointAddSubInverse` states that it undoes `+=`. |
| `Geometry.Point.Mul` | src/include/Triangle.hpp:58-64 | Point `*=`: componentwise product. `Geometry.PointMulLaws` gives its laws. |
| `Geometry.PointMulLaws` | src/include/Triangle.hpp:42-64 | Point `*=` with (1,1,1) changes nothing. Two multiplications equal one by the product. `*=` commutes and distributes over `+=`. |
| `Geometry.Triangle.Add` | src/include/Triangle.hpp:107-122 | Triangle `+=` with a point: the point is added to each vertex. `Geometry.TriangleAddSubInverse` and `Geometry.TriangleMulLaws` give its laws. |
| `Geometry.Triangle.Sub` | src/include/Triangle.hpp:124-138 | Triangle `-=` with a point: the point is subtracted from each vertex. `Geometry.TriangleAddSubInverse` states that it undoes `+=`. |
| `Geometry.Triangle.Mul` | src/include/Triangle.hpp:140-153 | Triangle `*=` with a point: each vertex is multiplied componentwise. `Geometry.TriangleMulLaws` gives its laws. |
| `Geometry.TriangleMulLaws` | src/include/Triangle.hpp:107-153 | Triangle `*=` with (1,1,1) changes nothing. Two multiplications equal one by the product. `*=` distributes over `+=`, vertex by vertex. |
| `Geometry.TriangleAddSubInverse` | src/include/Triangle.hpp:107-138 | Triangle `+=` then `-=` by the same point restores the triangle, and the other order does too. |
| `Geometry.MapTris` | src/include/Triangle.hpp:252-254 | Updating every triangle keeps their number and order, and the i-th result is the update of the i-th input. |
| `Geometry.Mesh.OfTriangles` | src/include/Triangle.hpp:210-211 | The triangles are stored as given, the origin is zero and the colours are 0. |
| `Geometry.Mesh.constructor` | src/include/Triangle.hpp:213-241 | The new mesh's state is `Made(offset, size, tris)`: every triangle is scaled by size then shifted by offset, the origin is offset and the colours are 0. |
| `Geometry.MadeVertices` | src/include/Triangle.hpp:213-241 | Each vertex v of the constructed mesh is size·v + offset, at the same position of the same triangle. |
| `Geometry.Mesh.SetOrigin` | src/include/Triangle.hpp:243-255 | The new state is `MovedTo(old state, p)`: every triangle moves by p − origin, and the origin becomes p. |
| `Geometry.MovedToKeepsShape` | src/include/Triangle.hpp:243-255 | After `set_origin(p)` the origin is p, and each triangle's offset from the origin is what it was. |
| `Geometry.MovedToIdempotent` | src/include/Triangle.hpp:243-255 | A second `set_origin(p)` with the same p changes nothing. |
| `Geometry.MovedToIsTranslation` | src/include/Triangle.hpp:243-264 | `set_origin(p)` is `translate(p − origin)`. |
| `Geometry.Mesh.Translate` | src/include/Triangle.hpp:257-264 | The new state is `Translated(old state, p)`: every triangle and the origin move by p. |
| `Geometry.TranslatedVertices` | src/include/Triangle.hpp:257-264 | After `translate(p)`, each vertex is the old vertex plus p and the origin is the old origin plus p. |
| `Geometry.TranslatedRoundTrip` | src/include/Triangle.hpp:257-264 | `translate(p)` followed by `translate(-p)` restores the mesh exactly. |
| `Geometry.TranslatedCompose` | src/include/Triangle.hpp:257-264 | `translate(p)` then `translate(q)` is `translate(p + q)`. |
| `Geometry.Mesh.Scale` | src/include/Triangle.hpp:266-274 | The new state is `Scaled(old state, s)`: each triangle is taken to the origin's frame, multiplied by (s, s, s) and taken back. |
| `Geometry.ScaledVertices` | src/include/Triangle.hpp:266-274 | After `scale(s)`, the origin is unchanged and each vertex v is origin + s·(v − origin). |
| `Geometry.ScaledByOne` | src/include/Triangle.hpp:266-274 | `scale(1)` leaves the mesh unchanged. |
| `Geometry.TransformsKeepLayout` | src/include/Triangle.hpp:243-274 | `set_origin`, `translate` and `scale` keep the triangle count and the colours. `scale` also keeps the origin. |
| `Geometry.UnitCube` | src/include/Triangle.hpp:325-349 | There are twelve triangles, two per face in the commented order south, east, north, west, top, bottom. Each lies on its face's plane, and every vertex is a corner (±½, ±½, ±½). The two triangles of each face together use all four of that face's corners, so each pair covers its face. |
| `Geometry.CubeVertices` | src/include/Triangle.hpp:323-350 | The placed cube has twelve triangles, its origin is the given origin, and every vertex coordinate is the origin's plus or minus half the scale. |
| `Geometry.MakeCube` | src/include/Triangle.hpp:323-350 | The result is a fresh mesh built by the scaling constructor from the unit cube. It has twelve triangles and origin `origin`, and every vertex is a placed cube corner. |

## Left out

- `src/main.cpp` is not part of this model. Its SDL window, event loop and line drawing are I/O. Its camera rotation and `project_point`/`scale_point_to_win` are floating-point numerics (`tanl`, `atan2l`, `sinl`, `cosl` and a `double`-to-`int` conversion), left out for the same reason as `Mesh::rotate`.
- `Mesh::rotate` is not modelled: it uses `sqrtl`, `atan2l`, `cosl` and `sinl`, which are outside exact real arithmetic.
- The `Display` members are not modelled: they only print.
- The binary operators `+`, `-`, `*` and `/` on points and triangles are not modelled. Only the compound assignments are part of the core. The second `operator+` template (Triangle.hpp:89-94) returns a componentwise difference.
- The triangle-by-triangle compound assignments (Triangle.hpp:156-178) are not modelled. They read fields `rhs.x`, `rhs.y` and `rhs.z` that a `Triangle` does not have, so no instantiation of them compiles.
- The `Numeric` concept, the converting constructors and the `Point<M>` conversion operator are not modelled. Every coordinate is one exact `real`, so no `static_cast` between element types (float, double, int) happens, and no rounding.
- The commented-out `CubeMesh` is not modelled.
- `Geometry.UnitCube` does not state that every triangle is wound the same way, with (b − a) × (c − a) as the outward normal of its face. The vertex order of the table is the source's, but the model does not prove the orientation.
- `Geometry.TranslatedRoundTrip`, `Geometry.TranslatedCompose`, `Geometry.ScaledByOne`, `Geometry.PointAddSubInverse`, `Geometry.TriangleAddSubInverse`, `Geometry.PointMulLaws`, `Geometry.TriangleMulLaws`, `Geometry.MovedToKeepsShape` and `Geometry.MovedToIsTranslation` hold for exact reals only. In the source's `double`, rounding breaks them. For example, (v + p) − p need not equal v, products need not associate or distribute, and origin + (p − origin) need not equal p.
- Point and triangle `+=`, `-=` and `*=` are functions returning the updated value rather than updating a reference in place. Mutation is visible in the model only through the `Mesh` fields, which the mesh methods reassign. The two differ only when the right-hand side aliases a vertex of the triangle being updated. In `t += t.a`, for example, the source doubles `a` first, so `b` gains twice the old `a`, while the model adds the old `a` to every vertex. `*=` has the same issue. No caller in the source aliases like this: `set_origin`, `translate` and `scale` pass a local point or `Mesh::origin`.
- `CohenSutherland.ComputeOutcode`: the source takes `double` x and y, but its only callers pass `int`s, so the model takes `int`.
- `CohenSutherland.Clip` and `CohenSutherland.CohenSutherlandClip` require a window with xMin ≤ xMax and yMin ≤ yMax. The source does not check this. For an inverted window the model makes no claim, including about termination.
- `CohenSutherland.ClipFitsInt32`: 32-bit wrap-around of `int` is not modelled. The model uses unbounded integers, and this lemma shows they agree with the source whenever every input coordinate is within ±23170: every intermediate segment stays within that bound, and every product and divisor fits 32 bits. Larger inputs can overflow `(x2 - x1) * (y_max - y1)` in the source.
- `CohenSutherland.Intersection` states that the new point is near the line through the current segment. The error from truncation can build up over several steps, so the model does not claim that an accepted result lies on the original line.
