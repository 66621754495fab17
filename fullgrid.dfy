/** `Rule3::SMOOTH` on a grid alive throughout, the situation of the
    `smooth3_4x4x4` and `smooth3_8x8x8` tests of the engine: the cells lying
    on two or more faces of the grid die, every other cell survives. */
module FullGridSmooth {
  import opened Words
  import opened Lattice
  import opened CytogonRules
  import opened CytogonGrid3

  /** `c` lies on the first or the last plane of an axis of size `s`. */
  predicate OnBorder(s: nat, c: int)
  {
    c == 0 || c == s - 1
  }

  /** How many faces of the grid the cell `(x, y, z)` lies on. */
  function Borders(sx: nat, sy: nat, sz: nat, x: int, y: int, z: int): nat
  {
    B(OnBorder(sx, x)) + B(OnBorder(sy, y)) + B(OnBorder(sz, z))
  }

  /** How many of `c - 1`, `c` and `c + 1` lie in `0..s`. */
  function Reach(s: nat, c: int): nat
  {
    B(0 <= c - 1 < s) + B(0 <= c < s) + B(0 <= c + 1 < s)
  }

  /** On an axis of at least two cells, a cell sees two in-grid positions
      around it (itself included) on the border and three elsewhere. */
  lemma ReachInside(s: nat, c: int)
    requires s >= 2 && 0 <= c < s
    ensures Reach(s, c) == if OnBorder(s, c) then 2 else 3
  {
  }

  /** On a grid alive throughout, with dead cells around it, a row of three
      holds the in-grid cells of the row. */
  lemma RowFull(cells: (int, int, int) -> bool, sx: nat, sy: nat, sz: nat, x: int, y: int, z: int)
    requires forall i, j, k :: InGrid3(sx, sy, sz, i, j, k) ==> cells(i, j, k)
    ensures Row3(WithBorder3(cells, sx, sy, sz, false), x, y, z)
         == if 0 <= y < sy && 0 <= z < sz then Reach(sx, x) else 0
  {
  }

  /** The live cells of an in-grid 3x3 square, centre included, on a grid
      alive throughout: 4 at a corner, 6 along an edge, 9 inside. */
  function PlaneCount(sx: nat, sy: nat, x: int, y: int): nat
  {
    if OnBorder(sx, x) && OnBorder(sy, y) then 4
    else if OnBorder(sx, x) || OnBorder(sy, y) then 6
    else 9
  }

  /** A plane of the box around `(x, y, z)` on a grid alive throughout. */
  lemma PlaneFull(cells: (int, int, int) -> bool, sx: nat, sy: nat, sz: nat, x: int, y: int, z: int)
    requires sx >= 2 && sy >= 2 && 0 <= x < sx && 0 <= y < sy
    requires forall i, j, k :: InGrid3(sx, sy, sz, i, j, k) ==> cells(i, j, k)
    ensures Plane3(WithBorder3(cells, sx, sy, sz, false), x, y, z)
         == if 0 <= z < sz then PlaneCount(sx, sy, x, y) else 0
  {
    RowFull(cells, sx, sy, sz, x, y - 1, z);
    RowFull(cells, sx, sy, sz, x, y, z);
    RowFull(cells, sx, sy, sz, x, y + 1, z);
    ReachInside(sx, x);
  }

  /** The number of live neighbours of a cell on `n` faces of a grid alive
      throughout: 26, 17, 11 or 7. */
  function FullCount(n: nat): nat
  {
    if n == 0 then 26 else if n == 1 then 17 else if n == 2 then 11 else 7
  }

  /** On a grid of at least two cells per axis, alive throughout, an
      in-grid cell on `n` faces has `FullCount(n)` live neighbours. */
  lemma {:induction false} FullNeighbours(cells: (int, int, int) -> bool, sx: nat, sy: nat, sz: nat, x: int, y: int, z: int)
    requires sx >= 2 && sy >= 2 && sz >= 2 && InGrid3(sx, sy, sz, x, y, z)
    requires forall i, j, k :: InGrid3(sx, sy, sz, i, j, k) ==> cells(i, j, k)
    ensures Moore26(WithBorder3(cells, sx, sy, sz, false), x, y, z) == FullCount(Borders(sx, sy, sz, x, y, z))
  {
    var w := WithBorder3(cells, sx, sy, sz, false);
    BoxFull(cells, sx, sy, sz, x, y, z);
    assert w(x, y, z);
    MooreFromPlanes(w, x, y, z, Borders(sx, sy, sz, x, y, z));
  }

  /** The 3x3x3 box around an in-grid cell of a grid alive throughout,
      plane by plane. */
  lemma BoxFull(cells: (int, int, int) -> bool, sx: nat, sy: nat, sz: nat, x: int, y: int, z: int)
    requires sx >= 2 && sy >= 2 && sz >= 2 && InGrid3(sx, sy, sz, x, y, z)
    requires forall i, j, k :: InGrid3(sx, sy, sz, i, j, k) ==> cells(i, j, k)
    ensures var w := WithBorder3(cells, sx, sy, sz, false);
      Plane3(w, x, y, z - 1) + Plane3(w, x, y, z) + Plane3(w, x, y, z + 1) == FullCount(Borders(sx, sy, sz, x, y, z)) + 1
  {
    var w := WithBorder3(cells, sx, sy, sz, false);
    PlaneFull(cells, sx, sy, sz, x, y, z - 1);
    PlaneFull(cells, sx, sy, sz, x, y, z);
    PlaneFull(cells, sx, sy, sz, x, y, z + 1);
    BoxCount(sx, sy, sz, x, y, z, Plane3(w, x, y, z - 1), Plane3(w, x, y, z), Plane3(w, x, y, z + 1));
  }

  /** The Moore count of a live cell from the three planes of its box. */
  lemma MooreFromPlanes(w: (int, int, int) -> bool, x: int, y: int, z: int, n: nat)
    requires w(x, y, z)
    requires Plane3(w, x, y, z - 1) + Plane3(w, x, y, z) + Plane3(w, x, y, z + 1) == FullCount(n) + 1
    ensures Moore26(w, x, y, z) == FullCount(n)
  {
    BoxMoore3(w, x, y, z);
  }

  /** The arithmetic of `FullNeighbours`: three planes of the box, the
      outer two counting only when they lie in the grid. */
  lemma BoxCount(sx: nat, sy: nat, sz: nat, x: int, y: int, z: int, p0: nat, p1: nat, p2: nat)
    requires sz >= 2 && 0 <= z < sz
    requires p0 == if 0 <= z - 1 < sz then PlaneCount(sx, sy, x, y) else 0
    requires p1 == PlaneCount(sx, sy, x, y)
    requires p2 == if 0 <= z + 1 < sz then PlaneCount(sx, sy, x, y) else 0
    ensures p0 + p1 + p2 == FullCount(Borders(sx, sy, sz, x, y, z)) + 1
  {
  }

  /** One step of `Rule3::SMOOTH` on a grid alive throughout kills exactly
      the cells lying on two or more faces: those have 11 or 7 neighbours,
      below the survival threshold 13, the others 26 or 17. */
  lemma {:induction false} SmoothFullStep(cells: (int, int, int) -> bool, sx: nat, sy: nat, sz: nat, x: int, y: int, z: int)
    requires sx >= 2 && sy >= 2 && sz >= 2 && InGrid3(sx, sy, sz, x, y, z)
    requires forall i, j, k :: InGrid3(sx, sy, sz, i, j, k) ==> cells(i, j, k)
    ensures Step3(Smooth3, cells, sx, sy, sz)(x, y, z)
        <==> !((OnBorder(sx, x) && OnBorder(sy, y)) || (OnBorder(sy, y) && OnBorder(sz, z))
               || (OnBorder(sz, z) && OnBorder(sx, x)))
  {
    var c := Moore26(WithBorder3(cells, sx, sy, sz, false), x, y, z);
    var n := Borders(sx, sy, sz, x, y, z);
    assert Step3(Smooth3, cells, sx, sy, sz)(x, y, z) == Smooth3.survive.Has(c) by {
      assert cells(x, y, z);
    }
    assert c == FullCount(n) by {
      FullNeighbours(cells, sx, sy, sz, x, y, z);
    }
    assert Smooth3.survive.Has(c) <==> n <= 1 by {
      Smooth3Counts();
    }
  }

  /** The tests `smooth3_4x4x4` and `smooth3_8x8x8`: a new grid of side 4
      or 8, filled alive, has one full block per 4x4x4 cells; after one
      `apply_rule(&Rule3::SMOOTH)` a cell is dead exactly when it lies on
      two or more faces. */
  method SmoothFullGrid(s: nat) returns (grid: Grid3)
    requires s == 4 || s == 8
    ensures fresh(grid) && grid.Valid() && grid.sx == s && grid.sy == s && grid.sz == s
    ensures |grid.data| == (s / 4) * (s / 4) * (s / 4)
    ensures forall x, y, z :: InGrid3(s, s, s, x, y, z) ==>
      (grid.cells(x, y, z) <==> !((OnBorder(s, x) && OnBorder(s, y)) || (OnBorder(s, y) && OnBorder(s, z))
                                 || (OnBorder(s, z) && OnBorder(s, x))))
  {
    grid := new Grid3(s, s, s);
    grid.Fill(true);
    assert |grid.data| == (s / 4) * (s / 4) * (s / 4) by {
      MulIsProduct(s / 4, s / 4);
      MulIsProduct((s / 4) * (s / 4), s / 4);
    }
    ghost var full := grid.cells;
    var r := grid.ApplyRule(Smooth3);
    forall x, y, z | InGrid3(s, s, s, x, y, z)
      ensures grid.cells(x, y, z) <==> !((OnBorder(s, x) && OnBorder(s, y)) || (OnBorder(s, y) && OnBorder(s, z))
                                        || (OnBorder(s, z) && OnBorder(s, x)))
    {
      SmoothFullStep(full, s, s, s, x, y, z);
    }
  }
}
