/** `rebuild_mesh` of `uscope`: the same surface scan as the viewer's
    `build_mesh`, written into the position and normal attributes of an
    existing mesh, with one normal per vertex: the axis of the face, `+1`
    when the lower cell is alive and `-1` otherwise. */
module Uscope {
  import opened Lattice
  import opened FaceMesh
  import G = CytogonGrid3

  datatype Topology = PointList | LineList | LineStrip | TriangleList | TriangleStrip

  /** `RenderAssetUsages`: whether the mesh lives in the main world, the
      render world, or both. */
  datatype Usage = Usage(main: bool, render: bool)

  /** The parts of a `Mesh` that `rebuild_mesh` reads or writes. An absent
      attribute is `None`. */
  class Mesh {
    var topology: Topology
    var usage: Usage
    var indices: Option<seq<nat>>
    var uvs: Option<seq<(real, real)>>
    var positions: Option<seq<Vec>>
    var normals: Option<seq<Vec>>

    constructor (topology: Topology, usage: Usage)
      ensures this.topology == topology && this.usage == usage
      ensures indices == None && uvs == None && positions == None && normals == None
    {
      this.topology := topology;
      this.usage := usage;
      indices := None;
      uvs := None;
      positions := None;
      normals := None;
    }
  }

  /** The six position pushes and the six normal pushes for one face. */
  method PushFace(positions: seq<Vec>, normals: seq<Vec>, f: Face) returns (ps: seq<Vec>, ns: seq<Vec>)
    ensures ps == positions + Quad(f)
    ensures ns == normals + NormalRun(f)
  {
    ps := PushQuad(positions, f);
    var n := Unit(f.axis);
    if !f.prev {
      n := n.Neg();
    }
    ns := normals + [n, n, n, n, n, n];
  }

  /** Pushing a face extends both lists by that face. */
  lemma SnocBoth(positions: seq<Vec>, normals: seq<Vec>, done: seq<Face>, f: Face)
    ensures positions + Quads(done) + Quad(f) == positions + Quads(done + [f])
    ensures normals + Normals(done) + NormalRun(f) == normals + Normals(done + [f])
  {
    QuadsSnoc(done, f);
    NormalsSnoc(done, f);
    Assoc(positions, Quads(done), Quad(f));
    Assoc(normals, Normals(done), NormalRun(f));
  }

  /** Extending both lists by the lists of more faces. */
  lemma ExtendBoth(positions: seq<Vec>, normals: seq<Vec>, done: seq<Face>, more: seq<Face>)
    ensures positions + Quads(done) + Quads(more) == positions + Quads(done + more)
    ensures normals + Normals(done) + Normals(more) == normals + Normals(done + more)
  {
    QuadsAppend(done, more);
    NormalsAppend(done, more);
    Assoc(positions, Quads(done), Quads(more));
    Assoc(normals, Normals(done), Normals(more));
  }

  /** One face of a row: both lists extended by the faces of the row up
      to `inner`, then by that of `inner` if it is one. */
  method ScanFace(grid: G.Grid3, axis: Axis, plane: nat, outer: nat, inner: nat,
                  ghost positions: seq<Vec>, ghost normals: seq<Vec>, ps: seq<Vec>, ns: seq<Vec>)
    returns (ps': seq<Vec>, ns': seq<Vec>)
    requires grid.Valid()
    requires var fs := RowFaces(grid.cells, Dims(grid.sx, grid.sy, grid.sz), axis, plane, outer, inner);
      ps == positions + Quads(fs) && ns == normals + Normals(fs)
    ensures var fs := RowFaces(grid.cells, Dims(grid.sx, grid.sy, grid.sz), axis, plane, outer, inner + 1);
      ps' == positions + Quads(fs) && ns' == normals + Normals(fs)
  {
    ghost var d := Dims(grid.sx, grid.sy, grid.sz);
    ghost var done := RowFaces(grid.cells, d, axis, plane, outer, inner);
    var pos, cur, prev := ReadFace(grid, axis, plane, outer, inner);
    RowFacesStep(grid.cells, d, axis, plane, outer, inner, pos, cur, prev);
    if cur != prev {
      var f := Face(axis, pos, prev);
      ps', ns' := PushFace(ps, ns, f);
      SnocBoth(positions, normals, done, f);
    } else {
      ps', ns' := ps, ns;
      assert done + [] == done;
    }
  }

  /** The scan of one row, extending both lists. */
  method ScanRow(grid: G.Grid3, axis: Axis, plane: nat, outer: nat, positions: seq<Vec>, normals: seq<Vec>)
    returns (ps: seq<Vec>, ns: seq<Vec>)
    requires grid.Valid()
    ensures var fs := RowFaces(grid.cells, Dims(grid.sx, grid.sy, grid.sz), axis, plane, outer,
                               Inners(Dims(grid.sx, grid.sy, grid.sz), axis));
      ps == positions + Quads(fs) && ns == normals + Normals(fs)
  {
    var d := Dims(grid.sx, grid.sy, grid.sz);
    ps, ns := positions, normals;
    for inner := 0 to Inners(d, axis)
      invariant ps == positions + Quads(RowFaces(grid.cells, d, axis, plane, outer, inner))
      invariant ns == normals + Normals(RowFaces(grid.cells, d, axis, plane, outer, inner))
    {
      ps, ns := ScanFace(grid, axis, plane, outer, inner, positions, normals, ps, ns);
    }
  }

  /** The scan of one plane, extending both lists. */
  method ScanSlab(grid: G.Grid3, axis: Axis, plane: nat, positions: seq<Vec>, normals: seq<Vec>)
    returns (ps: seq<Vec>, ns: seq<Vec>)
    requires grid.Valid()
    ensures var fs := SlabFaces(grid.cells, Dims(grid.sx, grid.sy, grid.sz), axis, plane,
                                Outers(Dims(grid.sx, grid.sy, grid.sz), axis));
      ps == positions + Quads(fs) && ns == normals + Normals(fs)
  {
    var d := Dims(grid.sx, grid.sy, grid.sz);
    ghost var cells := grid.cells;
    ps, ns := positions, normals;
    for outer := 0 to Outers(d, axis)
      invariant ps == positions + Quads(SlabFaces(cells, d, axis, plane, outer))
      invariant ns == normals + Normals(SlabFaces(cells, d, axis, plane, outer))
    {
      ghost var slab := SlabFaces(cells, d, axis, plane, outer);
      ghost var row := RowFaces(cells, d, axis, plane, outer, Inners(d, axis));
      assert SlabFaces(cells, d, axis, plane, outer + 1) == slab + row;
      ps, ns := ScanRow(grid, axis, plane, outer, ps, ns);
      ExtendBoth(positions, normals, slab, row);
    }
  }

  /** One plane of an axis: both lists extended by the faces of the planes
      before `plane`, then by those of `plane`. */
  method ScanPlane(grid: G.Grid3, axis: Axis, plane: nat,
                   ghost positions: seq<Vec>, ghost normals: seq<Vec>, ps: seq<Vec>, ns: seq<Vec>)
    returns (ps': seq<Vec>, ns': seq<Vec>)
    requires grid.Valid()
    requires var fs := AxisFaces(grid.cells, Dims(grid.sx, grid.sy, grid.sz), axis, plane);
      ps == positions + Quads(fs) && ns == normals + Normals(fs)
    ensures var fs := AxisFaces(grid.cells, Dims(grid.sx, grid.sy, grid.sz), axis, plane + 1);
      ps' == positions + Quads(fs) && ns' == normals + Normals(fs)
  {
    ghost var d := Dims(grid.sx, grid.sy, grid.sz);
    ghost var done := AxisFaces(grid.cells, d, axis, plane);
    ghost var slab := SlabFaces(grid.cells, d, axis, plane, Outers(d, axis));
    assert AxisFaces(grid.cells, d, axis, plane + 1) == done + slab;
    ps', ns' := ScanSlab(grid, axis, plane, ps, ns);
    ExtendBoth(positions, normals, done, slab);
  }

  /** The scan of one axis, extending both lists. */
  method ScanAxis(grid: G.Grid3, axis: Axis, positions: seq<Vec>, normals: seq<Vec>)
    returns (ps: seq<Vec>, ns: seq<Vec>)
    requires grid.Valid()
    ensures var fs := AxisFaces(grid.cells, Dims(grid.sx, grid.sy, grid.sz), axis,
                                Planes(Dims(grid.sx, grid.sy, grid.sz), axis));
      ps == positions + Quads(fs) && ns == normals + Normals(fs)
  {
    var d := Dims(grid.sx, grid.sy, grid.sz);
    ps, ns := positions, normals;
    for plane := 0 to Planes(d, axis)
      invariant ps == positions + Quads(AxisFaces(grid.cells, d, axis, plane))
      invariant ns == normals + Normals(AxisFaces(grid.cells, d, axis, plane))
    {
      ps, ns := ScanPlane(grid, axis, plane, positions, normals, ps, ns);
    }
  }

  /** Appending faces appends to both lists. */
  lemma AppendBoth(a: seq<Face>, b: seq<Face>)
    ensures Quads(a + b) == Quads(a) + Quads(b) && Normals(a + b) == Normals(a) + Normals(b)
  {
    QuadsAppend(a, b);
    NormalsAppend(a, b);
  }

  /** The two attribute lists of the scan: the positions of the X faces,
      then the Y faces, then the Z faces, and their normals alongside. */
  method Surface(grid: G.Grid3) returns (positions: seq<Vec>, normals: seq<Vec>)
    requires grid.Valid()
    ensures var fs := AllFaces(grid.cells, Dims(grid.sx, grid.sy, grid.sz));
      positions == Quads(fs) && normals == Normals(fs)
  {
    ghost var d := Dims(grid.sx, grid.sy, grid.sz);
    ghost var fx := AxisFaces(grid.cells, d, AxisX, Planes(d, AxisX));
    ghost var fy := AxisFaces(grid.cells, d, AxisY, Planes(d, AxisY));
    ghost var fz := AxisFaces(grid.cells, d, AxisZ, Planes(d, AxisZ));
    assert AllFaces(grid.cells, d) == fx + fy + fz;
    positions, normals := ScanAxis(grid, AxisX, [], []);
    assert positions == Quads(fx) && normals == Normals(fx) by {
      assert [] + Quads(fx) == Quads(fx) && [] + Normals(fx) == Normals(fx);
    }
    positions, normals := ScanAxis(grid, AxisY, positions, normals);
    AppendBoth(fx, fy);
    positions, normals := ScanAxis(grid, AxisZ, positions, normals);
    AppendBoth(fx + fy, fz);
  }

  /** `rebuild_mesh`: the mesh must be a triangle list living in both
      worlds and carry position and normal attributes (the sources panic
      otherwise).  Its indices and UVs are removed, and its positions and
      normals are replaced by those of the grid's surface, X faces first,
      then Y, then Z. */
  method RebuildMesh(grid: G.Grid3, mesh: Mesh)
    requires grid.Valid()
    requires mesh.topology == TriangleList
    requires mesh.usage == Usage(true, true)
    requires mesh.positions.Some? && mesh.normals.Some?
    modifies mesh
    ensures mesh.topology == old(mesh.topology) && mesh.usage == old(mesh.usage)
    ensures mesh.indices == None && mesh.uvs == None
    ensures var fs := AllFaces(grid.cells, Dims(grid.sx, grid.sy, grid.sz));
      mesh.positions == Some(Quads(fs)) && mesh.normals == Some(Normals(fs))
  {
    var positions, normals := Surface(grid);
    mesh.indices := None;
    mesh.uvs := None;
    mesh.positions := Some(positions);
    mesh.normals := Some(normals);
  }
}
