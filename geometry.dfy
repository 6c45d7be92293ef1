/** Points, triangles and meshes of the geometry pipeline, over exact real
    coordinates (the idealisation of `double`). A point and a triangle are
    values; a mesh is an object whose operations rewrite its triangles and its
    origin in place. */
module Geometry {

  /** A 3D point, or a componentwise scale factor. */
  datatype Point = Point(x: real, y: real, z: real) {

    /** `p += rhs`: componentwise sum. */
    function Add(rhs: Point): Point {
      Point(x + rhs.x, y + rhs.y, z + rhs.z)
    }

    /** `p -= rhs`: componentwise difference. */
    function Sub(rhs: Point): Point {
      Point(x - rhs.x, y - rhs.y, z - rhs.z)
    }

    /** `p *= rhs`: componentwise product. */
    function Mul(rhs: Point): Point {
      Point(x * rhs.x, y * rhs.y, z * rhs.z)
    }
  }

  const Zero := Point(0.0, 0.0, 0.0)

  function Neg(p: Point): Point {
    Point(-p.x, -p.y, -p.z)
  }

  /** The uniform scale factor (s, s, s). */
  function Uniform(s: real): Point {
    Point(s, s, s)
  }

  /** An ordered vertex triple; the order a, b, c fixes the edges drawn. */
  datatype Triangle = Triangle(a: Point, b: Point, c: Point) {

    /** `t += rhs`: the same point added to every vertex. */
    function Add(rhs: Point): Triangle {
      Triangle(a.Add(rhs), b.Add(rhs), c.Add(rhs))
    }

    /** `t -= rhs`: the same point subtracted from every vertex. */
    function Sub(rhs: Point): Triangle {
      Triangle(a.Sub(rhs), b.Sub(rhs), c.Sub(rhs))
    }

    /** `t *= rhs`: every vertex multiplied componentwise by the point. */
    function Mul(rhs: Point): Triangle {
      Triangle(a.Mul(rhs), b.Mul(rhs), c.Mul(rhs))
    }
  }

  function Vertices(t: Triangle): seq<Point> {
    [t.a, t.b, t.c]
  }

  /** `+=` and `-=` on points undo each other. */
  lemma PointAddSubInverse(p: Point, q: Point)
    ensures p.Add(q).Sub(q) == p
    ensures p.Sub(q).Add(q) == p
    ensures p.Add(q) == q.Add(p)
  {
  }

  /** `*=` on points: (1, 1, 1) is its identity, two multiplications are
      one by the product, it commutes, and it distributes over `+=`. */
  lemma PointMulLaws(p: Point, q: Point, w: Point)
    ensures p.Mul(Uniform(1.0)) == p
    ensures p.Mul(q).Mul(w) == p.Mul(q.Mul(w))
    ensures p.Mul(q) == q.Mul(p)
    ensures p.Add(q).Mul(w) == p.Mul(w).Add(q.Mul(w))
  {
  }

  /** `*=` on triangles obeys the same laws, vertex by vertex. */
  lemma TriangleMulLaws(t: Triangle, q: Point, w: Point)
    ensures t.Mul(Uniform(1.0)) == t
    ensures t.Mul(q).Mul(w) == t.Mul(q.Mul(w))
    ensures t.Add(q).Mul(w) == t.Mul(w).Add(q.Mul(w))
  {
    PointMulLaws(t.a, q, w);
    PointMulLaws(t.b, q, w);
    PointMulLaws(t.c, q, w);
  }

  /** `+=` and `-=` on triangles undo each other. */
  lemma TriangleAddSubInverse(t: Triangle, p: Point)
    ensures t.Add(p).Sub(p) == t
    ensures t.Sub(p).Add(p) == t
  {
  }

  /** The same update applied to every triangle, keeping count and order. */
  function MapTris(ts: seq<Triangle>, f: Triangle -> Triangle): (r: seq<Triangle>)
    ensures |r| == |ts|
    ensures forall i :: 0 <= i < |ts| ==> r[i] == f(ts[i])
  {
    if ts == [] then [] else [f(ts[0])] + MapTris(ts[1..], f)
  }

  /** The observable state of a mesh. */
  datatype MeshValue = MeshValue(tris: seq<Triangle>, origin: Point, red: int, green: int, blue: int)

  /** The per-triangle updates of the mesh operations. */
  function Shift(p: Point): Triangle -> Triangle {
    (t: Triangle) => t.Add(p)
  }

  function ScaleAbout(o: Point, s: real): Triangle -> Triangle {
    (t: Triangle) => t.Sub(o).Mul(Uniform(s)).Add(o)
  }

  function Place(size: real, offset: Point): Triangle -> Triangle {
    (t: Triangle) => t.Mul(Uniform(size)).Add(offset)
  }

  /** The scaling constructor: every vertex v becomes size * v + offset, and
      the origin is the offset. */
  function Made(offset: Point, size: real, ts: seq<Triangle>): MeshValue {
    MeshValue(MapTris(ts, Place(size, offset)), offset, 0, 0, 0)
  }

  /** `set_origin(p)`: the whole body moves by p - origin, and p becomes the
      origin. */
  function MovedTo(m: MeshValue, p: Point): MeshValue {
    var translation := p.Sub(m.origin);
    m.(tris := MapTris(m.tris, Shift(translation)), origin := p)
  }

  /** `translate(p)`: every vertex and the origin move by p. */
  function Translated(m: MeshValue, p: Point): MeshValue {
    m.(tris := MapTris(m.tris, Shift(p)), origin := m.origin.Add(p))
  }

  /** `scale(s)`: every vertex is taken to the origin's frame, scaled by s
      and taken back. */
  function Scaled(m: MeshValue, s: real): MeshValue {
    m.(tris := MapTris(m.tris, ScaleAbout(m.origin, s)))
  }

  /** Equal updates give equal mapped sequences. */
  lemma MapTrisExt(ts: seq<Triangle>, f: Triangle -> Triangle, g: Triangle -> Triangle)
    requires forall i :: 0 <= i < |ts| ==> f(ts[i]) == g(ts[i])
    ensures MapTris(ts, f) == MapTris(ts, g)
  {
  }

  /** A sequence that agrees with the update at every index is the mapped
      sequence. */
  lemma MapTrisEq(ts: seq<Triangle>, r: seq<Triangle>, f: Triangle -> Triangle)
    requires |r| == |ts| && forall i :: 0 <= i < |ts| ==> r[i] == f(ts[i])
    ensures MapTris(ts, f) == r
  {
    var m := MapTris(ts, f);
    assert forall i :: 0 <= i < |ts| ==> m[i] == r[i];
  }

  /** Where a vertex lands when the scaling constructor places it. */
  function Placed(v: Point, size: real, offset: Point): Point {
    Point(size * v.x + offset.x, size * v.y + offset.y, size * v.z + offset.z)
  }

  lemma PlacedPoint(v: Point, size: real, offset: Point)
    ensures v.Mul(Uniform(size)).Add(offset) == Placed(v, size, offset)
  {
    assert v.Mul(Uniform(size)) == Point(v.x * size, v.y * size, v.z * size);
    assert v.x * size == size * v.x && v.y * size == size * v.y && v.z * size == size * v.z;
  }

  /** Each vertex v of the constructed mesh is size * v + offset, in the
      same position of the same triangle. */
  lemma MadeVertices(offset: Point, size: real, ts: seq<Triangle>, i: nat)
    requires i < |ts|
    ensures var m := Made(offset, size, ts);
      |m.tris| == |ts| && m.origin == offset &&
      m.red == 0 && m.green == 0 && m.blue == 0 &&
      m.tris[i] == Triangle(Placed(ts[i].a, size, offset), Placed(ts[i].b, size, offset), Placed(ts[i].c, size, offset))
  {
    var t := ts[i];
    assert Made(offset, size, ts).tris[i] == t.Mul(Uniform(size)).Add(offset);
    PlacedPoint(t.a, size, offset);
    PlacedPoint(t.b, size, offset);
    PlacedPoint(t.c, size, offset);
  }

  /** `set_origin` keeps every vertex's offset from the origin, so the
      shape does not change. */
  lemma MovedToKeepsShape(m: MeshValue, p: Point)
    ensures var m' := MovedTo(m, p);
      m'.origin == p && |m'.tris| == |m.tris| &&
      forall i :: 0 <= i < |m.tris| ==> m'.tris[i].Sub(m'.origin) == m.tris[i].Sub(m.origin)
  {
    var m' := MovedTo(m, p);
    forall i | 0 <= i < |m.tris|
      ensures m'.tris[i].Sub(m'.origin) == m.tris[i].Sub(m.origin)
    {
      var t := m.tris[i];
      assert m'.tris[i] == t.Add(p.Sub(m.origin));
    }
  }

  /** Calling `set_origin` twice with the same point is calling it once. */
  lemma MovedToIdempotent(m: MeshValue, p: Point)
    ensures MovedTo(MovedTo(m, p), p) == MovedTo(m, p)
  {
    var m1 := MovedTo(m, p);
    assert p.Sub(m1.origin) == Zero;
    MapTrisExt(m1.tris, (t: Triangle) => t.Add(Zero), (t: Triangle) => t);
    assert forall i :: 0 <= i < |m1.tris| ==> MapTris(m1.tris, t => t)[i] == m1.tris[i];
  }

  /** `set_origin(p)` is `translate(p - origin)`. */
  lemma MovedToIsTranslation(m: MeshValue, p: Point)
    ensures MovedTo(m, p) == Translated(m, p.Sub(m.origin))
  {
    assert m.origin.Add(p.Sub(m.origin)) == p;
  }

  /** `translate(p)` then `translate(-p)` restores the mesh exactly. */
  lemma TranslatedRoundTrip(m: MeshValue, p: Point)
    ensures Translated(Translated(m, p), Neg(p)) == m
  {
    var m1 := Translated(m, p);
    var m2 := Translated(m1, Neg(p));
    forall i | 0 <= i < |m.tris| ensures m2.tris[i] == m.tris[i] {
      assert m2.tris[i] == m.tris[i].Add(p).Add(Neg(p));
    }
    assert m2.tris == m.tris;
  }

  /** `translate(p)` adds p to every vertex, in the same position of the
      same triangle, and to the origin. */
  lemma TranslatedVertices(m: MeshValue, p: Point, i: nat)
    requires i < |m.tris|
    ensures var m' := Translated(m, p);
      m'.origin == m.origin.Add(p) && |m'.tris| == |m.tris| &&
      m'.tris[i] == Triangle(m.tris[i].a.Add(p), m.tris[i].b.Add(p), m.tris[i].c.Add(p))
  {
    assert Translated(m, p).tris[i] == m.tris[i].Add(p);
  }

  /** Two translations are one translation by the sum. */
  lemma TranslatedCompose(m: MeshValue, p: Point, q: Point)
    ensures Translated(Translated(m, p), q) == Translated(m, p.Add(q))
  {
    var m1 := Translated(m, p);
    var m2 := Translated(m1, q);
    var m3 := Translated(m, p.Add(q));
    forall i | 0 <= i < |m.tris| ensures m2.tris[i] == m3.tris[i] {
      TranslatedVertices(m, p, i);
      TranslatedVertices(m1, q, i);
      TranslatedVertices(m, p.Add(q), i);
    }
    assert m2.tris == m3.tris;
  }

  /** The point o + s * (v - o). */
  function About(v: Point, o: Point, s: real): Point {
    Point(o.x + s * (v.x - o.x), o.y + s * (v.y - o.y), o.z + s * (v.z - o.z))
  }

  lemma AboutPoint(v: Point, o: Point, s: real)
    ensures v.Sub(o).Mul(Uniform(s)).Add(o) == About(v, o, s)
  {
    assert v.Sub(o).Mul(Uniform(s)) == Point((v.x - o.x) * s, (v.y - o.y) * s, (v.z - o.z) * s);
    assert (v.x - o.x) * s == s * (v.x - o.x) && (v.y - o.y) * s == s * (v.y - o.y) && (v.z - o.z) * s == s * (v.z - o.z);
  }

  /** `scale(s)` keeps the origin and maps each vertex v to
      origin + s * (v - origin), in the same position of the same triangle. */
  lemma ScaledVertices(m: MeshValue, s: real, i: nat)
    requires i < |m.tris|
    ensures var m' := Scaled(m, s);
      m'.origin == m.origin && |m'.tris| == |m.tris| &&
      m'.tris[i] == Triangle(About(m.tris[i].a, m.origin, s), About(m.tris[i].b, m.origin, s),
                             About(m.tris[i].c, m.origin, s))
  {
    var t := m.tris[i];
    assert Scaled(m, s).tris[i] == t.Sub(m.origin).Mul(Uniform(s)).Add(m.origin);
    AboutPoint(t.a, m.origin, s);
    AboutPoint(t.b, m.origin, s);
    AboutPoint(t.c, m.origin, s);
  }

  /** `scale(1)` changes nothing. */
  lemma ScaledByOne(m: MeshValue)
    ensures Scaled(m, 1.0) == m
  {
    var m' := Scaled(m, 1.0);
    forall i | 0 <= i < |m.tris| ensures m'.tris[i] == m.tris[i] {
      ScaledVertices(m, 1.0, i);
    }
    assert m'.tris == m.tris;
  }

  /** `set_origin`, `translate` and `scale` keep the number and order of
      triangles and the colour fields. */
  lemma TransformsKeepLayout(m: MeshValue, p: Point, s: real)
    ensures |MovedTo(m, p).tris| == |m.tris| && |Translated(m, p).tris| == |m.tris| && |Scaled(m, s).tris| == |m.tris|
    ensures MovedTo(m, p).(tris := m.tris, origin := m.origin) == m
    ensures Translated(m, p).(tris := m.tris, origin := m.origin) == m
    ensures Scaled(m, s).(tris := m.tris) == m
  {
  }

  /** A mesh object: its triangles, its pivot `origin` (kept up to date by
      every transform rather than recomputed) and a flat colour. */
  class Mesh {
    var tris: seq<Triangle>
    var origin: Point
    var red: int
    var green: int
    var blue: int

    function Value(): MeshValue
      reads this
    {
      MeshValue(tris, origin, red, green, blue)
    }

    /** `Mesh(tris)`: the triangles as given, origin at zero. */
    constructor OfTriangles(tris: seq<Triangle>)
      ensures Value() == MeshValue(tris, Zero, 0, 0, 0)
    {
      this.tris := tris;
      origin := Zero;
      red, green, blue := 0, 0, 0;
    }

    /** `Mesh(offset, size, tris)`: scales every vertex by size, then adds
        the offset, which becomes the origin. */
    constructor (offset: Point, size: real, tris: seq<Triangle>)
      ensures Value() == Made(offset, size, tris)
    {
      this.tris := tris;
      origin := offset;
      red, green, blue := 0, 0, 0;
      new;
      var i := 0;
      while i < |this.tris|
        invariant 0 <= i <= |this.tris| == |tris|
        invariant forall k :: 0 <= k < i ==> this.tris[k] == tris[k].Mul(Uniform(size)).Add(offset)
        invariant forall k :: i <= k < |tris| ==> this.tris[k] == tris[k]
        invariant origin == offset && red == 0 && green == 0 && blue == 0
      {
        var t := this.tris[i];
        t := t.Mul(Uniform(size));
        t := t.Add(origin);
        this.tris := this.tris[i := t];
        i := i + 1;
      }
    }

    method SetOrigin(p: Point)
      modifies this
      ensures Value() == MovedTo(old(Value()), p)
    {
      var translation := p;
      translation := translation.Sub(origin);
      origin := p;
      var i := 0;
      while i < |tris|
        invariant 0 <= i <= |tris| == |old(tris)|
        invariant forall k :: 0 <= k < i ==> tris[k] == old(tris)[k].Add(translation)
        invariant forall k :: i <= k < |tris| ==> tris[k] == old(tris)[k]
        invariant origin == p && red == old(red) && green == old(green) && blue == old(blue)
      {
        tris := tris[i := tris[i].Add(translation)];
        i := i + 1;
      }
    }

    method Translate(p: Point)
      modifies this
      ensures Value() == Translated(old(Value()), p)
    {
      var i := 0;
      while i < |tris|
        invariant 0 <= i <= |tris| == |old(tris)|
        invariant forall k :: 0 <= k < i ==> tris[k] == old(tris)[k].Add(p)
        invariant forall k :: i <= k < |tris| ==> tris[k] == old(tris)[k]
        invariant origin == old(origin) && red == old(red) && green == old(green) && blue == old(blue)
      {
        tris := tris[i := tris[i].Add(p)];
        i := i + 1;
      }
      origin := origin.Add(p);
    }

    method Scale(s: real)
      modifies this
      ensures Value() == Scaled(old(Value()), s)
    {
      var i := 0;
      while i < |tris|
        invariant 0 <= i <= |tris| == |old(tris)|
        invariant forall k :: 0 <= k < i ==> tris[k] == old(tris)[k].Sub(origin).Mul(Uniform(s)).Add(origin)
        invariant forall k :: i <= k < |tris| ==> tris[k] == old(tris)[k]
        invariant origin == old(origin) && red == old(red) && green == old(green) && blue == old(blue)
      {
        // into the origin's frame, scaled uniformly, and back
        tris := tris[i := tris[i].Sub(origin).Mul(Uniform(s)).Add(origin)];
        i := i + 1;
      }
      MapTrisEq(old(tris), tris, ScaleAbout(origin, s));
    }
  }

  /** Whether point v lies on the plane of cube face f (0 south, 1 east,
      2 north, 3 west, 4 top, 5 bottom) of the unit cube centred at zero. */
  predicate OnFacePlane(v: Point, f: int) {
    (f == 0 ==> v.z == -0.5) && (f == 1 ==> v.x == 0.5) && (f == 2 ==> v.z == 0.5) &&
    (f == 3 ==> v.x == -0.5) && (f == 4 ==> v.y == 0.5) && (f == 5 ==> v.y == -0.5)
  }

  /** Whether triangle t lies on cube face f. */
  predicate OnFace(t: Triangle, f: int) {
    forall v :: v in Vertices(t) ==> OnFacePlane(v, f)
  }

  predicate Half(c: real) {
    c == 0.5 || c == -0.5
  }

  predicate CubeCorner(v: Point) {
    Half(v.x) && Half(v.y) && Half(v.z)
  }

  /** The twelve triangles of the unit cube, two per face, in the order
      south, east, north, west, top, bottom. Each lies on its face, and the
      two triangles of a face together use all four of its corners, so the
      pair covers the face. */
  function UnitCube(): (ts: seq<Triangle>)
    ensures |ts| == 12
    ensures forall i :: 0 <= i < 12 ==> OnFace(ts[i], i / 2)
    ensures forall i :: 0 <= i < 12 ==> forall v :: v in Vertices(ts[i]) ==> CubeCorner(v)
    ensures forall f, v :: 0 <= f < 6 && CubeCorner(v) && OnFacePlane(v, f) ==>
      v in Vertices(ts[2 * f]) + Vertices(ts[2 * f + 1])
  {
    var h, l := 0.5, -0.5;
    [
      // south
      Triangle(Point(l, l, l), Point(l, h, l), Point(h, h, l)),
      Triangle(Point(h, l, l), Point(l, l, l), Point(h, h, l)),
      // east
      Triangle(Point(h, l, l), Point(h, h, l), Point(h, h, h)),
      Triangle(Point(h, l, l), Point(h, h, h), Point(h, l, h)),
      // north
      Triangle(Point(h, l, h), Point(h, h, h), Point(l, h, h)),
      Triangle(Point(h, l, h), Point(l, h, h), Point(l, l, h)),
      // west
      Triangle(Point(l, l, h), Point(l, h, h), Point(l, h, l)),
      Triangle(Point(l, l, h), Point(l, h, l), Point(l, l, l)),
      // top
      Triangle(Point(l, h, l), Point(l, h, h), Point(h, h, h)),
      Triangle(Point(l, h, l), Point(h, h, h), Point(h, h, l)),
      // bottom
      Triangle(Point(h, l, h), Point(l, l, h), Point(l, l, l)),
      Triangle(Point(h, l, h), Point(l, l, l), Point(h, l, l))
    ]
  }

  /** Each coordinate of a placed cube vertex is origin +- s / 2. */
  predicate PlacedCorner(v: Point, origin: Point, s: real) {
    (v.x == origin.x + 0.5 * s || v.x == origin.x - 0.5 * s) &&
    (v.y == origin.y + 0.5 * s || v.y == origin.y - 0.5 * s) &&
    (v.z == origin.z + 0.5 * s || v.z == origin.z - 0.5 * s)
  }

  lemma PlacedCornerPoint(w: Point, origin: Point, s: real)
    requires CubeCorner(w)
    ensures PlacedCorner(Placed(w, s, origin), origin, s)
  {
  }

  /** Placing triangles whose vertices are unit cube corners gives vertices
      whose every coordinate is the origin's plus or minus half the scale. */
  lemma PlacedCorners(origin: Point, s: real, ts: seq<Triangle>)
    requires forall i :: 0 <= i < |ts| ==> forall v :: v in Vertices(ts[i]) ==> CubeCorner(v)
    ensures var m := Made(origin, s, ts);
      forall i :: 0 <= i < |ts| ==> forall v :: v in Vertices(m.tris[i]) ==> PlacedCorner(v, origin, s)
  {
    var m := Made(origin, s, ts);
    forall i | 0 <= i < |ts|
      ensures forall v :: v in Vertices(m.tris[i]) ==> PlacedCorner(v, origin, s)
    {
      var t := ts[i];
      MadeVertices(origin, s, ts, i);
      assert t.a in Vertices(t) && t.b in Vertices(t) && t.c in Vertices(t);
      PlacedCornerPoint(t.a, origin, s);
      PlacedCornerPoint(t.b, origin, s);
      PlacedCornerPoint(t.c, origin, s);
    }
  }

  /** The cube mesh has twelve triangles whose every vertex coordinate is
      the origin's plus or minus half the scale. */
  lemma CubeVertices(origin: Point, s: real)
    ensures var m := Made(origin, s, UnitCube());
      |m.tris| == 12 && m.origin == origin &&
      forall i :: 0 <= i < 12 ==> forall v :: v in Vertices(m.tris[i]) ==> PlacedCorner(v, origin, s)
  {
    PlacedCorners(origin, s, UnitCube());
  }

  /** `MakeCube(origin, s)`: the unit cube scaled by s and placed at origin. */
  method MakeCube(origin: Point, s: real) returns (m: Mesh)
    ensures fresh(m) && m.Value() == Made(origin, s, UnitCube())
    ensures |m.tris| == 12 && m.origin == origin
    ensures forall i :: 0 <= i < 12 ==> forall v :: v in Vertices(m.tris[i]) ==> PlacedCorner(v, origin, s)
  {
    m := new Mesh(origin, s, UnitCube());
    CubeVertices(origin, s);
  }
}
