/** The surface extraction of the two front-ends: `build_mesh` in the
    viewer and `rebuild_mesh` in `uscope`.  Both walk every lattice face of
    a `Grid3` along each axis, planes `0..=size`, and emit one quad, as two
    triangles, wherever the cells on the two sides of the face differ,
    off-grid cells counting as dead.  Vertices are integer lattice corners:
    the sources place them at `offset + pos - 0.5`, a translation common to
    every vertex. */
module FaceMesh {
  import opened Lattice
  import G = CytogonGrid3

  // ----- Lattice vectors -----

  datatype Vec = Vec(x: int, y: int, z: int)
  {
    function Plus(v: Vec): Vec
    {
      Vec(x + v.x, y + v.y, z + v.z)
    }

    function Minus(v: Vec): Vec
    {
      Vec(x - v.x, y - v.y, z - v.z)
    }

    function Neg(): Vec
    {
      Vec(-x, -y, -z)
    }
  }

  /** The determinant `a d - b c`. */
  function Det(a: int, b: int, c: int, d: int): int
  {
    a * d - b * c
  }

  /** The cross product `u x v`. */
  function Cross(u: Vec, v: Vec): Vec
  {
    Vec(Det(u.y, u.z, v.y, v.z), Det(u.z, u.x, v.z, v.x), Det(u.x, u.y, v.x, v.y))
  }

  datatype Axis = AxisX | AxisY | AxisZ

  /** `IVec3::X`, `IVec3::Y`, `IVec3::Z`. */
  function Unit(axis: Axis): Vec
  {
    match axis
    case AxisX => Vec(1, 0, 0)
    case AxisY => Vec(0, 1, 0)
    case AxisZ => Vec(0, 0, 1)
  }

  /** The two axes spanning a face across `axis`, in the order that makes
      the "prev alive" triangles turn towards `+axis`. */
  function Tangents(axis: Axis): (Vec, Vec)
  {
    match axis
    case AxisX => (Unit(AxisY), Unit(AxisZ))
    case AxisY => (Unit(AxisZ), Unit(AxisX))
    case AxisZ => (Unit(AxisX), Unit(AxisY))
  }

  // ----- The grid as the extraction sees it -----

  datatype Dims = Dims(x: nat, y: nat, z: nat)

  /** `grid.cell(p).unwrap_or(false)`. */
  ghost predicate Solid(cells: (int, int, int) -> bool, d: Dims, p: Vec)
  {
    InGrid3(d.x, d.y, d.z, p.x, p.y, p.z) && cells(p.x, p.y, p.z)
  }

  /** Each axis is scanned plane by plane, then along an outer and an inner
      axis: `i`, `k`, `j` for X faces; `j`, `k`, `i` for Y faces; `k`, `j`,
      `i` for Z faces. */
  function Frame(axis: Axis, plane: int, outer: int, inner: int): Vec
  {
    match axis
    case AxisX => Vec(plane, inner, outer)
    case AxisY => Vec(inner, plane, outer)
    case AxisZ => Vec(inner, outer, plane)
  }

  function Plane(axis: Axis, p: Vec): int
  {
    match axis
    case AxisX => p.x
    case AxisY => p.y
    case AxisZ => p.z
  }

  function Outer(axis: Axis, p: Vec): int
  {
    match axis
    case AxisX => p.z
    case AxisY => p.z
    case AxisZ => p.y
  }

  function Inner(axis: Axis, p: Vec): int
  {
    match axis
    case AxisX => p.y
    case AxisY => p.x
    case AxisZ => p.x
  }

  function Planes(d: Dims, axis: Axis): nat
  {
    match axis
    case AxisX => d.x + 1
    case AxisY => d.y + 1
    case AxisZ => d.z + 1
  }

  function Outers(d: Dims, axis: Axis): nat
  {
    match axis
    case AxisX => d.z
    case AxisY => d.z
    case AxisZ => d.y
  }

  function Inners(d: Dims, axis: Axis): nat
  {
    match axis
    case AxisX => d.y
    case AxisY => d.x
    case AxisZ => d.x
  }

  lemma FrameCoords(axis: Axis, p: Vec)
    ensures Frame(axis, Plane(axis, p), Outer(axis, p), Inner(axis, p)) == p
    ensures forall pl, o, i {:trigger Frame(axis, pl, o, i)} ::
      Plane(axis, Frame(axis, pl, o, i)) == pl && Outer(axis, Frame(axis, pl, o, i)) == o
      && Inner(axis, Frame(axis, pl, o, i)) == i
  {
  }

  // ----- Faces -----

  /** The face across `axis` between the cells `pos - axis` (`prev`) and
      `pos`; `prev` records whether the lower cell is alive. */
  datatype Face = Face(axis: Axis, pos: Vec, prev: bool)

  /** A face of the surface: on one of the scanned planes, with exactly one
      of its two cells alive. */
  ghost predicate IsFace(cells: (int, int, int) -> bool, d: Dims, f: Face)
  {
    && 0 <= Plane(f.axis, f.pos) < Planes(d, f.axis)
    && 0 <= Outer(f.axis, f.pos) < Outers(d, f.axis)
    && 0 <= Inner(f.axis, f.pos) < Inners(d, f.axis)
    && f.prev == Solid(cells, d, f.pos.Minus(Unit(f.axis)))
    && f.prev != Solid(cells, d, f.pos)
  }

  /** The face the scan meets at `(plane, outer, inner)`, if the two cells
      differ there. */
  ghost function FaceAt(cells: (int, int, int) -> bool, d: Dims, axis: Axis, plane: int, outer: int, inner: int): seq<Face>
  {
    var p := Frame(axis, plane, outer, inner);
    var prev := Solid(cells, d, p.Minus(Unit(axis)));
    if Solid(cells, d, p) != prev then [Face(axis, p, prev)] else []
  }

  /** The faces met along the first `m` steps of one row of the scan. */
  ghost function RowFaces(cells: (int, int, int) -> bool, d: Dims, axis: Axis, plane: int, outer: int, m: nat): seq<Face>
  {
    if m == 0 then [] else RowFaces(cells, d, axis, plane, outer, m - 1) + FaceAt(cells, d, axis, plane, outer, m - 1)
  }

  /** The faces met along the first `m` rows of one plane. */
  ghost function SlabFaces(cells: (int, int, int) -> bool, d: Dims, axis: Axis, plane: int, m: nat): seq<Face>
  {
    if m == 0 then [] else SlabFaces(cells, d, axis, plane, m - 1) + RowFaces(cells, d, axis, plane, m - 1, Inners(d, axis))
  }

  /** The faces met on the first `m` planes across `axis`. */
  ghost function AxisFaces(cells: (int, int, int) -> bool, d: Dims, axis: Axis, m: nat): seq<Face>
  {
    if m == 0 then [] else AxisFaces(cells, d, axis, m - 1) + SlabFaces(cells, d, axis, m - 1, Outers(d, axis))
  }

  /** The faces of the whole scan, X faces first, then Y, then Z. */
  ghost function AllFaces(cells: (int, int, int) -> bool, d: Dims): seq<Face>
  {
    AxisFaces(cells, d, AxisX, d.x + 1) + AxisFaces(cells, d, AxisY, d.y + 1) + AxisFaces(cells, d, AxisZ, d.z + 1)
  }

  /** The six vertices pushed for a face, two triangles on the unit square
      at `pos` spanned by the two other axes; the "prev alive" and "cur
      alive" cases wind the other way round. */
  function Quad(f: Face): (q: seq<Vec>)
    ensures |q| == 6
  {
    var (a, b) := Tangents(f.axis);
    var m := f.pos;
    if f.prev then [m, m.Plus(a), m.Plus(b), m.Plus(b), m.Plus(a), m.Plus(a).Plus(b)]
    else [m, m.Plus(b), m.Plus(a), m.Plus(a), m.Plus(b), m.Plus(a).Plus(b)]
  }

  /** `uscope`'s normal for a face: `+1` on its axis when the lower cell is
      alive, `-1` otherwise. */
  function Normal(f: Face): (n: Vec)
  {
    var u := Unit(f.axis);
    if f.prev then u else u.Neg()
  }

  /** The vertices of a list of faces, six per face. */
  function Quads(fs: seq<Face>): (r: seq<Vec>)
    ensures |r| == 6 * |fs|
  {
    if fs == [] then [] else Quads(fs[..|fs| - 1]) + Quad(fs[|fs| - 1])
  }

  /** The six normal pushes for a face. */
  function NormalRun(f: Face): seq<Vec>
  {
    var n := Normal(f);
    [n, n, n, n, n, n]
  }

  /** The normals of a list of faces, the face's normal six times. */
  function Normals(fs: seq<Face>): (r: seq<Vec>)
    ensures |r| == 6 * |fs|
  {
    if fs == [] then [] else Normals(fs[..|fs| - 1]) + NormalRun(fs[|fs| - 1])
  }

  // ----- Geometry of one face -----

  /** The four vertices of a quad are the corners of the unit square at
      `pos` in the plane of the face, and the triangles share the diagonal
      from `pos + a` to `pos + b`. */
  lemma QuadCorners(f: Face)
    ensures var (a, b) := Tangents(f.axis);
      var m := f.pos;
      && (set v | v in Quad(f)) == {m, m.Plus(a), m.Plus(b), m.Plus(a).Plus(b)}
      && (forall v | v in Quad(f) :: Plane(f.axis, v) == Plane(f.axis, m))
  {
    var (a, b) := Tangents(f.axis);
    var m := f.pos;
    var q := Quad(f);
    assert q[0] == m && q[5] == m.Plus(a).Plus(b);
    assert {q[1], q[2]} == {m.Plus(a), m.Plus(b)};
    assert (set v | v in q) == {q[0], q[1], q[2], q[5]};
  }

  /** Each triangle of a quad turns towards the face's normal:
      `(v1 - v0) x (v2 - v0)` is the normal itself. */
  lemma QuadWinding(f: Face)
    ensures Cross(Quad(f)[1].Minus(Quad(f)[0]), Quad(f)[2].Minus(Quad(f)[0])) == Normal(f)
    ensures Cross(Quad(f)[4].Minus(Quad(f)[3]), Quad(f)[5].Minus(Quad(f)[3])) == Normal(f)
  {
    var (a, b) := Tangents(f.axis);
    var (s, t) := if f.prev then (a, b) else (b, a);
    QuadEdges(f);
    TangentsCross(f.axis);
    CrossShear(s, t);
    assert Normal(f) == Cross(s, t);
  }

  /** The edges of a quad's two triangles: the tangents `(s, t)`, in the
      order the case of the face picks, then `s - t` and `s`. */
  lemma QuadEdges(f: Face)
    ensures var (a, b) := Tangents(f.axis);
      var (s, t) := if f.prev then (a, b) else (b, a);
      var q := Quad(f);
      && q[1].Minus(q[0]) == s && q[2].Minus(q[0]) == t
      && q[4].Minus(q[3]) == s.Minus(t) && q[5].Minus(q[3]) == s
  {
    var (a, b) := Tangents(f.axis);
    var (s, t) := if f.prev then (a, b) else (b, a);
    var m := f.pos;
    var q := Quad(f);
    assert q == [m, m.Plus(s), m.Plus(t), m.Plus(t), m.Plus(s), m.Plus(a).Plus(b)];
    EdgesOf(m, s, t, q[1], q[2], q[3], q[4], q[5]);
  }

  lemma EdgesOf(m: Vec, s: Vec, t: Vec, v1: Vec, v2: Vec, v3: Vec, v4: Vec, v5: Vec)
    requires v1 == m.Plus(s) && v2 == m.Plus(t) && v3 == m.Plus(t) && v4 == m.Plus(s)
    requires v5.x == m.x + s.x + t.x && v5.y == m.y + s.y + t.y && v5.z == m.z + s.z + t.z
    ensures v1.Minus(m) == s && v2.Minus(m) == t && v4.Minus(v3) == s.Minus(t) && v5.Minus(v3) == s
  {
    VecExt(v1.Minus(m), s);
    VecExt(v2.Minus(m), t);
    VecExt(v4.Minus(v3), s.Minus(t));
    VecExt(v5.Minus(v3), s);
  }

  /** The second triangle of a quad, spanned by `a - b` and `a`, turns
      like the first, spanned by `a` and `b`. */
  lemma CrossShear(a: Vec, b: Vec)
    ensures Cross(a.Minus(b), a) == Cross(a, b)
  {
    VecExt(Cross(a.Minus(b), a), Cross(a, b));
  }

  /** The tangents of each axis turn towards it. */
  lemma TangentsCross(axis: Axis)
    ensures Cross(Tangents(axis).0, Tangents(axis).1) == Unit(axis)
    ensures Cross(Tangents(axis).1, Tangents(axis).0) == Unit(axis).Neg()
  {
    var (a, b) := Tangents(axis);
    match axis
    case AxisX => CrossYZ(a, b, Unit(axis));
    case AxisY => CrossZX(a, b, Unit(axis));
    case AxisZ => CrossXY(a, b, Unit(axis));
    CrossSwap(a, b);
  }

  /** Swapping the factors negates the cross product. */
  lemma CrossSwap(u: Vec, v: Vec)
    ensures Cross(v, u) == Cross(u, v).Neg()
  {
    VecExt(Cross(v, u), Cross(u, v).Neg());
  }

  /** `Y x Z = X`, `Z x X = Y` and `X x Y = Z`, on vectors given by their
      coordinates. */
  lemma CrossYZ(a: Vec, b: Vec, n: Vec)
    requires a.x == 0 && a.y == 1 && a.z == 0
    requires b.x == 0 && b.y == 0 && b.z == 1
    requires n.x == 1 && n.y == 0 && n.z == 0
    ensures Cross(a, b) == n
  {
    var c := Cross(a, b);
    assert c.x == n.x;
    assert c.y == n.y;
    assert c.z == n.z;
    VecExt(c, n);
  }

  lemma CrossZX(a: Vec, b: Vec, n: Vec)
    requires a.x == 0 && a.y == 0 && a.z == 1
    requires b.x == 1 && b.y == 0 && b.z == 0
    requires n.x == 0 && n.y == 1 && n.z == 0
    ensures Cross(a, b) == n
  {
    var c := Cross(a, b);
    assert c.x == n.x;
    assert c.y == n.y;
    assert c.z == n.z;
    VecExt(c, n);
  }

  lemma CrossXY(a: Vec, b: Vec, n: Vec)
    requires a.x == 1 && a.y == 0 && a.z == 0
    requires b.x == 0 && b.y == 1 && b.z == 0
    requires n.x == 0 && n.y == 0 && n.z == 1
    ensures Cross(a, b) == n
  {
    var c := Cross(a, b);
    assert c.x == n.x;
    assert c.y == n.y;
    assert c.z == n.z;
    VecExt(c, n);
  }

  /** Vectors with equal coordinates are equal. */
  lemma VecExt(u: Vec, v: Vec)
    requires u.x == v.x && u.y == v.y && u.z == v.z
    ensures u == v
  {
  }

  /** A triangle `u` is `t` run the other way round. */
  predicate Reversed(t: seq<Vec>, u: seq<Vec>)
    requires |t| == 3 && |u| == 3
  {
    u == [t[0], t[2], t[1]] || u == [t[2], t[1], t[0]] || u == [t[1], t[0], t[2]]
  }

  /** The two cases of the scan emit the same two triangles, each wound
      the other way. */
  lemma QuadReversed(axis: Axis, pos: Vec)
    ensures Reversed(Quad(Face(axis, pos, true))[..3], Quad(Face(axis, pos, false))[..3])
    ensures Reversed(Quad(Face(axis, pos, true))[3..], Quad(Face(axis, pos, false))[3..])
  {
  }

  /** The normal of a face of the surface points from its alive cell to
      its dead one. */
  lemma NormalOutward(cells: (int, int, int) -> bool, d: Dims, f: Face)
    requires IsFace(cells, d, f)
    ensures var lower := f.pos.Minus(Unit(f.axis));
      var (alive, dead) := if f.prev then (lower, f.pos) else (f.pos, lower);
      Solid(cells, d, alive) && !Solid(cells, d, dead) && dead.Minus(alive) == Normal(f)
  {
    StepBack(f.pos, Unit(f.axis));
  }

  /** Stepping back by `u` and returning is `u`; the other way is `-u`. */
  lemma StepBack(p: Vec, u: Vec)
    ensures p.Minus(p.Minus(u)) == u && p.Minus(u).Minus(p) == u.Neg()
  {
    VecExt(p.Minus(p.Minus(u)), u);
    VecExt(p.Minus(u).Minus(p), u.Neg());
  }

  // ----- The scan finds exactly the faces of the surface -----

  /** Where the faces of a row prefix lie: on that row, at an inner
      coordinate below `m`. */
  lemma {:induction false} RowFacesAt(cells: (int, int, int) -> bool, d: Dims, axis: Axis, plane: int, outer: int, m: nat)
    ensures forall f | f in RowFaces(cells, d, axis, plane, outer, m) ::
      && f.axis == axis && Plane(axis, f.pos) == plane && Outer(axis, f.pos) == outer
      && 0 <= Inner(axis, f.pos) < m
  {
    if m > 0 {
      RowFacesAt(cells, d, axis, plane, outer, m - 1);
      FrameCoords(axis, Vec(0, 0, 0));
    }
  }

  /** Where the faces of a plane prefix lie: on that plane, at an outer
      coordinate below `m`. */
  lemma {:induction false} SlabFacesAt(cells: (int, int, int) -> bool, d: Dims, axis: Axis, plane: int, m: nat)
    ensures forall f | f in SlabFaces(cells, d, axis, plane, m) ::
      f.axis == axis && Plane(axis, f.pos) == plane && 0 <= Outer(axis, f.pos) < m
  {
    if m > 0 {
      SlabFacesAt(cells, d, axis, plane, m - 1);
      RowFacesAt(cells, d, axis, plane, m - 1, Inners(d, axis));
    }
  }

  /** Where the faces of the first `m` planes lie: across `axis`, on a
      plane below `m`. */
  lemma {:induction false} AxisFacesAt(cells: (int, int, int) -> bool, d: Dims, axis: Axis, m: nat)
    ensures forall f | f in AxisFaces(cells, d, axis, m) :: f.axis == axis && 0 <= Plane(axis, f.pos) < m
  {
    if m > 0 {
      AxisFacesAt(cells, d, axis, m - 1);
      SlabFacesAt(cells, d, axis, m - 1, Outers(d, axis));
    }
  }

  /** Every face of a row prefix is a face of the surface. */
  lemma {:induction false} RowFacesSound(cells: (int, int, int) -> bool, d: Dims, axis: Axis, plane: int, outer: int, m: nat)
    requires 0 <= plane < Planes(d, axis) && 0 <= outer < Outers(d, axis) && m <= Inners(d, axis)
    ensures forall f | f in RowFaces(cells, d, axis, plane, outer, m) :: IsFace(cells, d, f)
  {
    if m > 0 {
      RowFacesSound(cells, d, axis, plane, outer, m - 1);
      FrameCoords(axis, Vec(0, 0, 0));
    }
  }

  lemma {:induction false} SlabFacesSound(cells: (int, int, int) -> bool, d: Dims, axis: Axis, plane: int, m: nat)
    requires 0 <= plane < Planes(d, axis) && m <= Outers(d, axis)
    ensures forall f | f in SlabFaces(cells, d, axis, plane, m) :: IsFace(cells, d, f)
  {
    if m > 0 {
      SlabFacesSound(cells, d, axis, plane, m - 1);
      RowFacesSound(cells, d, axis, plane, m - 1, Inners(d, axis));
    }
  }

  /** Every face the scan of an axis meets is a face of the surface. */
  lemma {:induction false} AxisFacesSound(cells: (int, int, int) -> bool, d: Dims, axis: Axis, m: nat)
    requires m <= Planes(d, axis)
    ensures forall f | f in AxisFaces(cells, d, axis, m) :: IsFace(cells, d, f)
  {
    if m > 0 {
      AxisFacesSound(cells, d, axis, m - 1);
      SlabFacesSound(cells, d, axis, m - 1, Outers(d, axis));
    }
  }

  lemma {:induction false} RowFacesComplete(cells: (int, int, int) -> bool, d: Dims, f: Face, m: nat)
    requires IsFace(cells, d, f) && Inner(f.axis, f.pos) < m
    ensures f in RowFaces(cells, d, f.axis, Plane(f.axis, f.pos), Outer(f.axis, f.pos), m)
  {
    var axis, p := f.axis, f.pos;
    if Inner(axis, p) < m - 1 {
      RowFacesComplete(cells, d, f, m - 1);
    } else {
      FrameCoords(axis, p);
      assert FaceAt(cells, d, axis, Plane(axis, p), Outer(axis, p), m - 1) == [f];
    }
  }

  lemma {:induction false} SlabFacesComplete(cells: (int, int, int) -> bool, d: Dims, f: Face, m: nat)
    requires IsFace(cells, d, f) && Outer(f.axis, f.pos) < m
    ensures f in SlabFaces(cells, d, f.axis, Plane(f.axis, f.pos), m)
  {
    if Outer(f.axis, f.pos) < m - 1 {
      SlabFacesComplete(cells, d, f, m - 1);
    } else {
      RowFacesComplete(cells, d, f, Inners(d, f.axis));
    }
  }

  lemma {:induction false} AxisFacesComplete(cells: (int, int, int) -> bool, d: Dims, f: Face, m: nat)
    requires IsFace(cells, d, f) && Plane(f.axis, f.pos) < m
    ensures f in AxisFaces(cells, d, f.axis, m)
  {
    if Plane(f.axis, f.pos) < m - 1 {
      AxisFacesComplete(cells, d, f, m - 1);
    } else {
      SlabFacesComplete(cells, d, f, Outers(d, f.axis));
    }
  }

  /** The scan meets a face exactly when it is a face of the surface: the
      two cells on its sides differ, off-grid cells counting as dead,
      including on planes `0` and `size`. */
  lemma AllFacesExact(cells: (int, int, int) -> bool, d: Dims, f: Face)
    ensures f in AllFaces(cells, d) <==> IsFace(cells, d, f)
  {
    if f in AllFaces(cells, d) {
      var fx := AxisFaces(cells, d, AxisX, d.x + 1);
      var fy := AxisFaces(cells, d, AxisY, d.y + 1);
      var fz := AxisFaces(cells, d, AxisZ, d.z + 1);
      if f in fx {
        AxisFacesSound(cells, d, AxisX, d.x + 1);
      } else if f in fy {
        AxisFacesSound(cells, d, AxisY, d.y + 1);
      } else {
        assert f in fz;
        AxisFacesSound(cells, d, AxisZ, d.z + 1);
      }
    }
    if IsFace(cells, d, f) {
      AxisFacesComplete(cells, d, f, Planes(d, f.axis));
      match f.axis
      case AxisX =>
      case AxisY =>
      case AxisZ =>
    }
  }

  /** No face is listed twice. */
  predicate Distinct(fs: seq<Face>)
  {
    forall m, n | 0 <= m < n < |fs| :: fs[m] != fs[n]
  }

  lemma DistinctAppend(a: seq<Face>, b: seq<Face>)
    requires Distinct(a) && Distinct(b) && forall f | f in a :: f !in b
    ensures Distinct(a + b)
  {
    forall m, n | 0 <= m < n < |a + b|
      ensures (a + b)[m] != (a + b)[n]
    {
      if n >= |a| && m < |a| {
        assert (a + b)[m] in a && (a + b)[n] in b;
      }
    }
  }

  /** Faces whose `key` differs are different. */
  lemma DisjointBy(a: seq<Face>, b: seq<Face>, key: Face -> int, k: int)
    requires forall f | f in a :: key(f) < k
    requires forall f | f in b :: key(f) == k
    ensures forall f | f in a :: f !in b
  {
  }

  lemma {:induction false} RowFacesDistinct(cells: (int, int, int) -> bool, d: Dims, axis: Axis, plane: int, outer: int, m: nat)
    ensures Distinct(RowFaces(cells, d, axis, plane, outer, m))
  {
    if m > 0 {
      var prefix := RowFaces(cells, d, axis, plane, outer, m - 1);
      var step := FaceAt(cells, d, axis, plane, outer, m - 1);
      assert forall f | f in prefix :: f !in step by {
        RowFacesAt(cells, d, axis, plane, outer, m - 1);
        FrameCoords(axis, Vec(0, 0, 0));
        DisjointBy(prefix, step, (f: Face) => Inner(axis, f.pos), m - 1);
      }
      RowFacesDistinct(cells, d, axis, plane, outer, m - 1);
      DistinctAppend(prefix, step);
    }
  }

  lemma {:induction false} SlabFacesDistinct(cells: (int, int, int) -> bool, d: Dims, axis: Axis, plane: int, m: nat)
    ensures Distinct(SlabFaces(cells, d, axis, plane, m))
  {
    if m > 0 {
      var prefix := SlabFaces(cells, d, axis, plane, m - 1);
      var row := RowFaces(cells, d, axis, plane, m - 1, Inners(d, axis));
      assert forall f | f in prefix :: f !in row by {
        SlabFacesAt(cells, d, axis, plane, m - 1);
        RowFacesAt(cells, d, axis, plane, m - 1, Inners(d, axis));
        DisjointBy(prefix, row, (f: Face) => Outer(axis, f.pos), m - 1);
      }
      SlabFacesDistinct(cells, d, axis, plane, m - 1);
      RowFacesDistinct(cells, d, axis, plane, m - 1, Inners(d, axis));
      DistinctAppend(prefix, row);
    }
  }

  lemma {:induction false} AxisFacesDistinct(cells: (int, int, int) -> bool, d: Dims, axis: Axis, m: nat)
    ensures Distinct(AxisFaces(cells, d, axis, m))
  {
    if m > 0 {
      var prefix := AxisFaces(cells, d, axis, m - 1);
      var slab := SlabFaces(cells, d, axis, m - 1, Outers(d, axis));
      assert forall f | f in prefix :: f !in slab by {
        AxisFacesAt(cells, d, axis, m - 1);
        SlabFacesAt(cells, d, axis, m - 1, Outers(d, axis));
        DisjointBy(prefix, slab, (f: Face) => Plane(axis, f.pos), m - 1);
      }
      AxisFacesDistinct(cells, d, axis, m - 1);
      SlabFacesDistinct(cells, d, axis, m - 1, Outers(d, axis));
      DistinctAppend(prefix, slab);
    }
  }

  /** Faces across different axes are different. */
  lemma AxesDisjoint(a: seq<Face>, b: seq<Face>, axisA: Axis, axisB: Axis)
    requires axisA != axisB
    requires forall f | f in a :: f.axis == axisA
    requires forall f | f in b :: f.axis == axisB
    ensures forall f | f in a :: f !in b
  {
  }

  /** The scan of one axis lists its faces once, each across that axis. */
  lemma AxisFacesOnce(cells: (int, int, int) -> bool, d: Dims, axis: Axis)
    ensures Distinct(AxisFaces(cells, d, axis, Planes(d, axis)))
    ensures forall f | f in AxisFaces(cells, d, axis, Planes(d, axis)) :: f.axis == axis
  {
    AxisFacesDistinct(cells, d, axis, Planes(d, axis));
    AxisFacesAt(cells, d, axis, Planes(d, axis));
  }

  /** The scan lists each face of the surface once. */
  lemma AllFacesDistinct(cells: (int, int, int) -> bool, d: Dims)
    ensures Distinct(AllFaces(cells, d))
  {
    var fx := AxisFaces(cells, d, AxisX, Planes(d, AxisX));
    var fy := AxisFaces(cells, d, AxisY, Planes(d, AxisY));
    var fz := AxisFaces(cells, d, AxisZ, Planes(d, AxisZ));
    AxisFacesOnce(cells, d, AxisX);
    AxisFacesOnce(cells, d, AxisY);
    AxisFacesOnce(cells, d, AxisZ);
    AxesDisjoint(fx, fy, AxisX, AxisY);
    DistinctAppend(fx, fy);
    AxesDisjoint(fx, fz, AxisX, AxisZ);
    AxesDisjoint(fy, fz, AxisY, AxisZ);
    DistinctAppend(fx + fy, fz);
    assert AllFaces(cells, d) == fx + fy + fz;
  }

  /** An all-dead grid has no face. */
  lemma DeadGridNoFaces(cells: (int, int, int) -> bool, d: Dims)
    requires forall x, y, z :: !cells(x, y, z)
    ensures AllFaces(cells, d) == []
  {
    if AllFaces(cells, d) != [] {
      AllFacesExact(cells, d, AllFaces(cells, d)[0]);
      assert false;
    }
  }

  /** At most one face per step of the scan. */
  lemma {:induction false} AxisFacesBound(cells: (int, int, int) -> bool, d: Dims, axis: Axis, m: nat)
    ensures |AxisFaces(cells, d, axis, m)| <= Mul(m, Mul(Outers(d, axis), Inners(d, axis)))
  {
    if m > 0 {
      AxisFacesBound(cells, d, axis, m - 1);
      SlabFacesBound(cells, d, axis, m - 1, Outers(d, axis));
    }
  }

  lemma {:induction false} SlabFacesBound(cells: (int, int, int) -> bool, d: Dims, axis: Axis, plane: int, m: nat)
    ensures |SlabFaces(cells, d, axis, plane, m)| <= Mul(m, Inners(d, axis))
  {
    if m > 0 {
      SlabFacesBound(cells, d, axis, plane, m - 1);
      RowFacesBound(cells, d, axis, plane, m - 1, Inners(d, axis));
    }
  }

  lemma {:induction false} RowFacesBound(cells: (int, int, int) -> bool, d: Dims, axis: Axis, plane: int, outer: int, m: nat)
    ensures |RowFaces(cells, d, axis, plane, outer, m)| <= m
  {
    if m > 0 {
      RowFacesBound(cells, d, axis, plane, outer, m - 1);
    }
  }

  /** The `capacity` both front-ends reserve:
      `((z + 1) x y + (y + 1) z x + (x + 1) z y) * 6`, its products as
      `Mul` with the factors in scan order. */
  function Capacity(d: Dims): nat
  {
    (Mul(d.z + 1, Mul(d.y, d.x)) + Mul(d.y + 1, Mul(d.z, d.x)) + Mul(d.x + 1, Mul(d.z, d.y))) * 6
  }

  /** The vertices of the scan never exceed the reserved capacity. */
  lemma CapacityBound(cells: (int, int, int) -> bool, d: Dims)
    ensures |Quads(AllFaces(cells, d))| <= Capacity(d)
  {
    AxisFacesBound(cells, d, AxisX, d.x + 1);
    AxisFacesBound(cells, d, AxisY, d.y + 1);
    AxisFacesBound(cells, d, AxisZ, d.z + 1);
  }

  // ----- Appending faces -----

  lemma QuadsSnoc(fs: seq<Face>, f: Face)
    ensures Quads(fs + [f]) == Quads(fs) + Quad(f)
  {
    assert (fs + [f])[..|fs|] == fs;
  }

  lemma NormalsSnoc(fs: seq<Face>, f: Face)
    ensures Normals(fs + [f]) == Normals(fs) + NormalRun(f)
  {
    assert (fs + [f])[..|fs|] == fs;
  }

  lemma {:induction false} QuadsAppend(a: seq<Face>, b: seq<Face>)
    ensures Quads(a + b) == Quads(a) + Quads(b)
    decreases |b|
  {
    if b != [] {
      var c, f := b[..|b| - 1], b[|b| - 1];
      assert a + b == (a + c) + [f];
      QuadsSnoc(a + c, f);
      QuadsAppend(a, c);
      Assoc(Quads(a), Quads(c), Quad(f));
    } else {
      assert a + b == a;
    }
  }

  lemma {:induction false} NormalsAppend(a: seq<Face>, b: seq<Face>)
    ensures Normals(a + b) == Normals(a) + Normals(b)
    decreases |b|
  {
    if b != [] {
      var c, f := b[..|b| - 1], b[|b| - 1];
      assert a + b == (a + c) + [f];
      NormalsSnoc(a + c, f);
      NormalsAppend(a, c);
      Assoc(Normals(a), Normals(c), NormalRun(f));
    } else {
      assert a + b == a;
    }
  }

  /** Vertex `j` of face `i` sits at `6 i + j` in the vertex list. */
  lemma {:induction false} QuadsAt(fs: seq<Face>, i: nat, j: nat)
    requires i < |fs| && j < 6
    ensures Quads(fs)[6 * i + j] == Quad(fs[i])[j]
    decreases |fs|
  {
    var p := fs[..|fs| - 1];
    if i < |p| {
      QuadsAt(p, i, j);
      assert fs[i] == p[i];
    }
  }

  /** The normal at `6 i + j` is the normal of face `i`. */
  lemma {:induction false} NormalsAt(fs: seq<Face>, i: nat, j: nat)
    requires i < |fs| && j < 6
    ensures Normals(fs)[6 * i + j] == Normal(fs[i])
    decreases |fs|
  {
    var p := fs[..|fs| - 1];
    if i < |p| {
      NormalsAt(p, i, j);
      assert fs[i] == p[i];
    }
  }

  /** The normals `uscope` stores are the flat normals of the triangles
      they belong to: for the triangle starting at `k`, the normal stored
      at each of its three vertices is `(v1 - v0) x (v2 - v0)`. */
  lemma FlatNormals(fs: seq<Face>, i: nat, t: nat)
    requires i < |fs| && (t == 0 || t == 3)
    ensures var ps, ns, k := Quads(fs), Normals(fs), 6 * i + t;
      && Cross(ps[k + 1].Minus(ps[k]), ps[k + 2].Minus(ps[k])) == ns[k]
      && ns[k + 1] == ns[k] && ns[k + 2] == ns[k]
  {
    QuadsAt(fs, i, t);
    QuadsAt(fs, i, t + 1);
    QuadsAt(fs, i, t + 2);
    NormalsAt(fs, i, t);
    NormalsAt(fs, i, t + 1);
    NormalsAt(fs, i, t + 2);
    QuadWinding(fs[i]);
  }

  // ----- The viewer's `build_mesh` -----

  /** The six pushes for one face, in the order of the sources. */
  method PushQuad(vertices: seq<Vec>, f: Face) returns (vs: seq<Vec>)
    ensures vs == vertices + Quad(f)
  {
    var (a, b) := Tangents(f.axis);
    var m := f.pos;
    if f.prev {
      vs := vertices + [m, m.Plus(a), m.Plus(b), m.Plus(b), m.Plus(a), m.Plus(a).Plus(b)];
    } else {
      vs := vertices + [m, m.Plus(b), m.Plus(a), m.Plus(a), m.Plus(b), m.Plus(a).Plus(b)];
    }
  }

  /** On the first plane the lower cell lies outside the grid. */
  lemma LowerOffGrid(cells: (int, int, int) -> bool, d: Dims, axis: Axis, outer: int, inner: int)
    ensures !Solid(cells, d, Frame(axis, 0, outer, inner).Minus(Unit(axis)))
  {
  }

  /** The cells on the two sides of the face the scan meets at
      `(plane, outer, inner)`, as `grid.cell(..).unwrap_or(false)` reads
      them. */
  method ReadFace(grid: G.Grid3, axis: Axis, plane: nat, outer: nat, inner: nat) returns (pos: Vec, cur: bool, prev: bool)
    requires grid.Valid()
    ensures var d := Dims(grid.sx, grid.sy, grid.sz);
      && pos == Frame(axis, plane, outer, inner)
      && cur == Solid(grid.cells, d, pos)
      && prev == Solid(grid.cells, d, pos.Minus(Unit(axis)))
  {
    pos := Frame(axis, plane, outer, inner);
    var c := grid.Cell(pos.x, pos.y, pos.z);
    cur := c.UnwrapOr(false);
    prev := false;
    if plane > 0 {
      var lower := pos.Minus(Unit(axis));
      var l := grid.Cell(lower.x, lower.y, lower.z);
      prev := l.UnwrapOr(false);
    } else {
      LowerOffGrid(grid.cells, Dims(grid.sx, grid.sy, grid.sz), axis, outer, inner);
    }
  }

  /** One step of a row: the face met there, if any, is appended. */
  lemma RowFacesStep(cells: (int, int, int) -> bool, d: Dims, axis: Axis, plane: int, outer: int, inner: nat,
                     pos: Vec, cur: bool, prev: bool)
    requires pos == Frame(axis, plane, outer, inner)
    requires cur == Solid(cells, d, pos) && prev == Solid(cells, d, pos.Minus(Unit(axis)))
    ensures RowFaces(cells, d, axis, plane, outer, inner + 1)
         == RowFaces(cells, d, axis, plane, outer, inner) + (if cur != prev then [Face(axis, pos, prev)] else [])
  {
  }

  /** The scan of one row, extending `vertices`. */
  method ScanRow(grid: G.Grid3, axis: Axis, plane: nat, outer: nat, vertices: seq<Vec>) returns (vs: seq<Vec>)
    requires grid.Valid()
    ensures vs == vertices + Quads(RowFaces(grid.cells, Dims(grid.sx, grid.sy, grid.sz), axis, plane, outer,
                                            Inners(Dims(grid.sx, grid.sy, grid.sz), axis)))
  {
    var d := Dims(grid.sx, grid.sy, grid.sz);
    ghost var cells := grid.cells;
    vs := vertices;
    for inner := 0 to Inners(d, axis)
      invariant vs == vertices + Quads(RowFaces(cells, d, axis, plane, outer, inner))
    {
      ghost var done := RowFaces(cells, d, axis, plane, outer, inner);
      var pos, cur, prev := ReadFace(grid, axis, plane, outer, inner);
      RowFacesStep(cells, d, axis, plane, outer, inner, pos, cur, prev);
      if cur != prev {
        vs := PushQuad(vs, Face(axis, pos, prev));
        QuadsSnoc(done, Face(axis, pos, prev));
        Assoc(vertices, Quads(done), Quad(Face(axis, pos, prev)));
      } else {
        assert done + [] == done;
      }
    }
  }

  /** The scan of one plane, extending `vertices`. */
  method ScanSlab(grid: G.Grid3, axis: Axis, plane: nat, vertices: seq<Vec>) returns (vs: seq<Vec>)
    requires grid.Valid()
    ensures vs == vertices + Quads(SlabFaces(grid.cells, Dims(grid.sx, grid.sy, grid.sz), axis, plane,
                                             Outers(Dims(grid.sx, grid.sy, grid.sz), axis)))
  {
    var d := Dims(grid.sx, grid.sy, grid.sz);
    ghost var cells := grid.cells;
    vs := vertices;
    for outer := 0 to Outers(d, axis)
      invariant vs == vertices + Quads(SlabFaces(cells, d, axis, plane, outer))
    {
      ghost var slab := SlabFaces(cells, d, axis, plane, outer);
      ghost var row := RowFaces(cells, d, axis, plane, outer, Inners(d, axis));
      vs := ScanRow(grid, axis, plane, outer, vs);
      QuadsAppend(slab, row);
      Assoc(vertices, Quads(slab), Quads(row));
    }
  }

  /** The scan of one axis, extending `vertices`. */
  method ScanAxis(grid: G.Grid3, axis: Axis, vertices: seq<Vec>) returns (vs: seq<Vec>)
    requires grid.Valid()
    ensures vs == vertices + Quads(AxisFaces(grid.cells, Dims(grid.sx, grid.sy, grid.sz), axis,
                                             Planes(Dims(grid.sx, grid.sy, grid.sz), axis)))
  {
    var d := Dims(grid.sx, grid.sy, grid.sz);
    ghost var cells := grid.cells;
    vs := vertices;
    for plane := 0 to Planes(d, axis)
      invariant vs == vertices + Quads(AxisFaces(cells, d, axis, plane))
    {
      ghost var done := AxisFaces(cells, d, axis, plane);
      ghost var slab := SlabFaces(cells, d, axis, plane, Outers(d, axis));
      vs := ScanSlab(grid, axis, plane, vs);
      QuadsAppend(done, slab);
      Assoc(vertices, Quads(done), Quads(slab));
    }
  }

  /** `build_mesh`: the position attribute of the mesh, the X faces, then
      the Y faces, then the Z faces of the grid's surface. */
  method BuildMesh(grid: G.Grid3) returns (vertices: seq<Vec>)
    requires grid.Valid()
    ensures vertices == Quads(AllFaces(grid.cells, Dims(grid.sx, grid.sy, grid.sz)))
  {
    ghost var d := Dims(grid.sx, grid.sy, grid.sz);
    ghost var fx := AxisFaces(grid.cells, d, AxisX, Planes(d, AxisX));
    ghost var fy := AxisFaces(grid.cells, d, AxisY, Planes(d, AxisY));
    ghost var fz := AxisFaces(grid.cells, d, AxisZ, Planes(d, AxisZ));
    assert AllFaces(grid.cells, d) == fx + fy + fz;
    vertices := ScanAxis(grid, AxisX, []);
    assert vertices == Quads(fx) by {
      assert [] + Quads(fx) == Quads(fx);
    }
    vertices := ScanAxis(grid, AxisY, vertices);
    QuadsAppend(fx, fy);
    vertices := ScanAxis(grid, AxisZ, vertices);
    QuadsAppend(fx + fy, fz);
  }
}
