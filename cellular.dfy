/** The older grids of the `cellular` crate: one `bool` per cell in a
    `Vec<bool>`, numbered row by row (and layer by layer in 3D), and a
    `smooth` that rewrites the grid in place, in raster order, without a
    copy, so that a cell's count already sees the new state of every cell
    visited before it. */
module Cellular {
  import opened Lattice

  // ----- Raster order and the smoothing rules -----

  /** `(x, y)` is visited before `(i, j)` by loops over rows `j`, then
      columns `i`. */
  predicate Before2(x: int, y: int, i: int, j: int)
  {
    y < j || (y == j && x < i)
  }

  /** What the loops of `smooth` see when they reach `(x, y)`: the cells
      visited before it hold their value in `after`, the others still hold
      their value in `before`. */
  function Mix2(after: (int, int) -> bool, before: (int, int) -> bool, x: int, y: int): (int, int) -> bool
  {
    (i: int, j: int) => if Before2(i, j, x, y) then after(i, j) else before(i, j)
  }

  /** The 2D smoothing rule "5-8/5-8/2/M": with `c` live neighbours among
      the 8, off-grid ones dead, a cell becomes alive when `c > 4`, dead when
      `c < 4`, and keeps its state when `c == 4`. */
  function SmoothCell2(cells: (int, int) -> bool, sx: nat, sy: nat, x: int, y: int): bool
  {
    var c := Moore8(WithBorder2(cells, sx, sy, false), x, y);
    if c > 4 then true else if c < 4 then false else cells(x, y)
  }

  /** Part way through the loops of `smooth`, at `(i, j)`: every cell
      visited so far holds the rule applied to the grid as it was when the
      loops reached it, and every other cell still holds its state in
      `before`. */
  ghost predicate Smoothing2(cells: (int, int) -> bool, before: (int, int) -> bool, sx: nat, sy: nat, i: int, j: int)
  {
    && (forall x, y {:trigger Reached2(cells, before, sx, sy, x, y)} ::
          InGrid2(sx, sy, x, y) && Before2(x, y, i, j) ==> cells(x, y) == Reached2(cells, before, sx, sy, x, y))
    && (forall x, y {:trigger cells(x, y)} ::
          InGrid2(sx, sy, x, y) && !Before2(x, y, i, j) ==> cells(x, y) == before(x, y))
  }

  /** The state the loops give the cell `(x, y)` when they reach it, `after`
      holding the final states. */
  function Reached2(after: (int, int) -> bool, before: (int, int) -> bool, sx: nat, sy: nat, x: int, y: int): bool
  {
    SmoothCell2(Mix2(after, before, x, y), sx, sy, x, y)
  }

  /** `cells` is what one in-place raster pass of `smooth` makes of
      `before`. */
  ghost predicate Smoothed2(cells: (int, int) -> bool, before: (int, int) -> bool, sx: nat, sy: nat)
  {
    Smoothing2(cells, before, sx, sy, 0, sy)
  }

  /** The rule only reads the grid: grids that agree on every in-grid cell
      smooth an in-grid cell alike. */
  lemma SmoothCellAgree2(a: (int, int) -> bool, b: (int, int) -> bool, sx: nat, sy: nat, x: int, y: int)
    requires InGrid2(sx, sy, x, y)
    requires forall i, j :: InGrid2(sx, sy, i, j) ==> a(i, j) == b(i, j)
    ensures SmoothCell2(a, sx, sy, x, y) == SmoothCell2(b, sx, sy, x, y)
  {
    var wa, wb := WithBorder2(a, sx, sy, false), WithBorder2(b, sx, sy, false);
    RowAgree2(a, b, sx, sy, x, y - 1);
    RowAgree2(a, b, sx, sy, x, y);
    RowAgree2(a, b, sx, sy, x, y + 1);
    WindowMoore2(wa, x, y);
    WindowMoore2(wb, x, y);
    assert a(x, y) == b(x, y);
  }

  /** A row of three neighbours reads alike in grids that agree on every
      in-grid cell. */
  lemma RowAgree2(a: (int, int) -> bool, b: (int, int) -> bool, sx: nat, sy: nat, x: int, j: int)
    requires forall i, j :: InGrid2(sx, sy, i, j) ==> a(i, j) == b(i, j)
    ensures Row2(WithBorder2(a, sx, sy, false), x, j) == Row2(WithBorder2(b, sx, sy, false), x, j)
  {
    var wa, wb := WithBorder2(a, sx, sy, false), WithBorder2(b, sx, sy, false);
    assert wa(x - 1, j) == wb(x - 1, j);
    assert wa(x, j) == wb(x, j);
    assert wa(x + 1, j) == wb(x + 1, j);
  }

  /** Nothing is visited at the start. */
  lemma SmoothingStart2(before: (int, int) -> bool, sx: nat, sy: nat)
    ensures Smoothing2(before, before, sx, sy, 0, 0)
  {
  }

  /** Smoothing the in-grid cell `(i, j)` on the grid as it stands (the
      body of the loops) moves the pass on to `(i + 1, j)`. */
  lemma {:induction false} SmoothingCell2(cells: (int, int) -> bool, before: (int, int) -> bool, sx: nat, sy: nat, i: int, j: int)
    requires Smoothing2(cells, before, sx, sy, i, j) && InGrid2(sx, sy, i, j)
    ensures Smoothing2(Update2(cells, i, j, SmoothCell2(cells, sx, sy, i, j)), before, sx, sy, i + 1, j)
  {
    var next := Update2(cells, i, j, SmoothCell2(cells, sx, sy, i, j));
    forall x, y | InGrid2(sx, sy, x, y)
      ensures next(x, y) == if Before2(x, y, i + 1, j) then Reached2(next, before, sx, sy, x, y) else before(x, y)
    {
      if x == i && y == j {
        forall p, q | InGrid2(sx, sy, p, q)
          ensures Mix2(next, before, i, j)(p, q) == cells(p, q)
        {
          assert cells(p, q) == if Before2(p, q, i, j) then Reached2(cells, before, sx, sy, p, q) else before(p, q);
        }
        SmoothCellAgree2(Mix2(next, before, i, j), cells, sx, sy, i, j);
      } else if Before2(x, y, i, j) {
        assert cells(x, y) == Reached2(cells, before, sx, sy, x, y);
        forall p, q | InGrid2(sx, sy, p, q)
          ensures Mix2(next, before, x, y)(p, q) == Mix2(cells, before, x, y)(p, q)
        {
        }
        SmoothCellAgree2(Mix2(next, before, x, y), Mix2(cells, before, x, y), sx, sy, x, y);
      } else {
        assert cells(x, y) == before(x, y);
      }
    }
  }

  /** A finished row moves the pass on to the next row. */
  lemma SmoothingRow2(cells: (int, int) -> bool, before: (int, int) -> bool, sx: nat, sy: nat, j: int)
    requires Smoothing2(cells, before, sx, sy, sx, j)
    ensures Smoothing2(cells, before, sx, sy, 0, j + 1)
  {
    forall x, y | InGrid2(sx, sy, x, y)
      ensures cells(x, y) == if Before2(x, y, 0, j + 1) then Reached2(cells, before, sx, sy, x, y) else before(x, y)
    {
      assert Before2(x, y, 0, j + 1) == Before2(x, y, sx, j);
    }
  }

  /** Two passes over `before` that agree on the cells visited before the
      in-grid cell `(i, j)` agree on `(i, j)` too. */
  lemma SmoothedAgreeNext2(a: (int, int) -> bool, b: (int, int) -> bool, before: (int, int) -> bool, sx: nat, sy: nat,
                           i: int, j: int)
    requires Smoothed2(a, before, sx, sy) && Smoothed2(b, before, sx, sy) && InGrid2(sx, sy, i, j)
    requires forall x, y :: InGrid2(sx, sy, x, y) && Before2(x, y, i, j) ==> a(x, y) == b(x, y)
    ensures a(i, j) == b(i, j)
  {
    assert a(i, j) == Reached2(a, before, sx, sy, i, j);
    assert b(i, j) == Reached2(b, before, sx, sy, i, j);
    forall p, q | InGrid2(sx, sy, p, q)
      ensures Mix2(a, before, i, j)(p, q) == Mix2(b, before, i, j)(p, q)
    {
    }
    SmoothCellAgree2(Mix2(a, before, i, j), Mix2(b, before, i, j), sx, sy, i, j);
  }

  /** One raster pass has exactly one outcome: two grids that both are a
      pass over `before` agree on every cell. */
  lemma SmoothedUnique2(a: (int, int) -> bool, b: (int, int) -> bool, before: (int, int) -> bool, sx: nat, sy: nat)
    requires Smoothed2(a, before, sx, sy) && Smoothed2(b, before, sx, sy)
    ensures forall x, y :: InGrid2(sx, sy, x, y) ==> a(x, y) == b(x, y)
  {
    var j := 0;
    while j < sy
      invariant 0 <= j <= sy
      invariant forall x, y :: InGrid2(sx, sy, x, y) && Before2(x, y, 0, j) ==> a(x, y) == b(x, y)
    {
      var i := 0;
      while i < sx
        invariant 0 <= i <= sx
        invariant forall x, y :: InGrid2(sx, sy, x, y) && Before2(x, y, i, j) ==> a(x, y) == b(x, y)
      {
        SmoothedAgreeNext2(a, b, before, sx, sy, i, j);
        i := i + 1;
      }
      j := j + 1;
    }
  }

  // ----- Grid2 -----

  /** The grid `data` stores, cell `(x, y)` being entry `y * size.x + x`. */
  function View2(sx: nat, data: seq<bool>): (int, int) -> bool
  {
    (x: int, y: int) => x >= 0 && y >= 0 && Index2(sx, x, y) < |data| && data[Index2(sx, x, y)]
  }

  /** `data` stores `cells`: the in-grid cell `(x, y)` is entry
      `y * size.x + x`. */
  ghost predicate Stores2(sx: nat, sy: nat, data: seq<bool>, cells: (int, int) -> bool)
  {
    && Mul(sx, sy) <= |data|
    && forall x, y {:trigger data[Index2(sx, x, y)]} :: InGrid2(sx, sy, x, y) ==>
         Index2(sx, x, y) < |data| && cells(x, y) == data[Index2(sx, x, y)]
  }

  /** The number of cells of a grid: `size.x * size.y`, the length `fill`
      gives `data`; every in-grid cell has its entry below it. */
  lemma CellsBelow2(sx: nat, sy: nat, x: int, y: int)
    requires InGrid2(sx, sy, x, y)
    ensures Index2(sx, x, y) < Mul(sx, sy)
  {
    Index2Bound(sx, sy, x, y);
    MulComm(sx, sy);
  }

  /** Writing entry `y * size.x + x` stores the grid with that one cell
      changed. */
  lemma StoresUpdate2(sx: nat, sy: nat, data: seq<bool>, cells: (int, int) -> bool, x: int, y: int, value: bool)
    requires Stores2(sx, sy, data, cells) && InGrid2(sx, sy, x, y)
    ensures Index2(sx, x, y) < |data|
    ensures Stores2(sx, sy, data[Index2(sx, x, y) := value], Update2(cells, x, y, value))
  {
    CellsBelow2(sx, sy, x, y);
    var data2 := data[Index2(sx, x, y) := value];
    forall x2, y2 | InGrid2(sx, sy, x2, y2)
      ensures Index2(sx, x2, y2) < |data2| && Update2(cells, x, y, value)(x2, y2) == data2[Index2(sx, x2, y2)]
    {
      assert cells(x2, y2) == data[Index2(sx, x2, y2)];
      if (x2 != x || y2 != y) && Index2(sx, x2, y2) == Index2(sx, x, y) {
        Index2Injective(sx, x, y, x2, y2);
      }
    }
  }

  class Grid2 {
    /** `size.x` and `size.y`, in cells. */
    const sx: nat
    const sy: nat
    /** One entry per cell, row by row. */
    var data: seq<bool>
    /** The state of every cell, as `data` stores it. */
    ghost var cells: (int, int) -> bool

    /** Every cell has its entry (what `cell` needs not to panic), and
        `cells` is what `data` stores. */
    ghost predicate Valid()
      reads this
    {
      Stores2(sx, sy, data, cells)
    }

    /** `Grid2::new`: no cell stored yet. */
    constructor (sx: nat, sy: nat)
      ensures this.sx == sx && this.sy == sy && data == []
    {
      this.sx := sx;
      this.sy := sy;
      data := [];
      cells := View2(sx, []);
    }

    /** `fill`: resizes `data` to `size.x * size.y` entries, keeping the
        existing ones and appending `value`; a grid without cells yet is
        `value` throughout. */
    method Fill(value: bool)
      modifies this
      ensures Valid() && |data| == Mul(sx, sy)
      ensures forall n :: 0 <= n < |data| ==> data[n] == if n < |old(data)| then old(data)[n] else value
      ensures old(data) == [] ==> forall x, y :: InGrid2(sx, sy, x, y) ==> cells(x, y) == value
    {
      data := Resize(data, Mul(sx, sy), value);
      cells := View2(sx, data);
      forall x, y | InGrid2(sx, sy, x, y)
        ensures Index2(sx, x, y) < |data| && cells(x, y) == data[Index2(sx, x, y)]
      {
        CellsBelow2(sx, sy, x, y);
      }
    }

    /** `cell`: `None` exactly off the grid, otherwise entry
        `y * size.x + x`. */
    method Cell(x: int, y: int) returns (r: Option<bool>)
      requires Valid()
      ensures r == if InGrid2(sx, sy, x, y) then Some(cells(x, y)) else None
      ensures r.Some? ==> Index2(sx, x, y) < |data| && r.value == data[Index2(sx, x, y)]
    {
      if x < 0 || y < 0 || x >= sx || y >= sy {
        r := None;
      } else {
        CellsBelow2(sx, sy, x, y);
        var index := Index2(sx, x, y);
        assert cells(x, y) == data[index];
        r := Some(data[index]);
      }
    }

    /** `cell_mut`: the entry a mutable reference would point at, `None`
        exactly off the grid. */
    method CellMut(x: int, y: int) returns (r: Option<nat>)
      requires Valid()
      ensures r == if InGrid2(sx, sy, x, y) then Some(Index2(sx, x, y)) else None
      ensures r.Some? ==> r.value < |data| && data[r.value] == cells(x, y)
    {
      if x < 0 || y < 0 || x >= sx || y >= sy {
        r := None;
      } else {
        CellsBelow2(sx, sy, x, y);
        var index := Index2(sx, x, y);
        assert cells(x, y) == data[index];
        r := Some(index);
      }
    }

    /** `*self.cell_mut(pos).unwrap() = value`: the unwrap needs an in-grid
        position; that one cell changes and no other. */
    method Put(x: int, y: int, value: bool)
      requires Valid() && InGrid2(sx, sy, x, y)
      modifies this
      ensures Valid() && |data| == |old(data)|
      ensures Index2(sx, x, y) < |data| && data == old(data)[Index2(sx, x, y) := value]
      ensures cells == Update2(old(cells), x, y, value)
    {
      var slot := CellMut(x, y);
      StoresUpdate2(sx, sy, data, cells, x, y, value);
      data := data[slot.value := value];
      cells := Update2(cells, x, y, value);
    }

    /** `count_neighbors`: the live cells among the 8 neighbours, off-grid
        neighbours reading `default`. */
    method CountNeighbors(x: int, y: int, default: bool) returns (count: nat)
      requires Valid()
      ensures count == Moore8(WithBorder2(cells, sx, sy, default), x, y)
    {
      ghost var alive := Without2(WithBorder2(cells, sx, sy, default), x, y);
      count := 0;
      var j := y - 1;
      while j <= y + 1
        invariant y - 1 <= j <= y + 2
        invariant count == RowsSum2(alive, x, y - 1, j)
      {
        count := CountRow(count, x, y, j, default);
        j := j + 1;
      }
      CountingLoop2(WithBorder2(cells, sx, sy, default), x, y);
    }

    /** The inner loop of `count_neighbors`: adds the live cells of row `j`
        from `x - 1` to `x + 1`, the centre skipped. */
    method CountRow(count0: nat, x: int, y: int, j: int, default: bool) returns (count: nat)
      requires Valid()
      ensures count == count0 + Row2(Without2(WithBorder2(cells, sx, sy, default), x, y), x, j)
    {
      ghost var alive := Without2(WithBorder2(cells, sx, sy, default), x, y);
      count := count0;
      var i := x - 1;
      while i <= x + 1
        invariant x - 1 <= i <= x + 2
        invariant count == count0 + RunSum2(alive, j, x - 1, i)
      {
        var cell := Cell(i, j);
        if (i != x || j != y) && cell.UnwrapOr(default) {
          count := count + 1;
        }
        i := i + 1;
      }
      RunRow2(alive, x, j);
    }

    /** The body of the loops of `smooth` at the in-grid cell `(x, y)`: the
        count is taken on the grid as it stands, then the cell is set when
        `c > 4` and cleared when `c < 4`. */
    method SmoothCell(x: int, y: int)
      requires Valid() && InGrid2(sx, sy, x, y)
      modifies this
      ensures Valid() && |data| == |old(data)|
      ensures cells == Update2(old(cells), x, y, SmoothCell2(old(cells), sx, sy, x, y))
      ensures forall n :: 0 <= n < |data| && n != Index2(sx, x, y) ==> data[n] == old(data)[n]
    {
      var c := CountNeighbors(x, y, false);
      if c > 4 {
        Put(x, y, true);
      } else if c < 4 {
        Put(x, y, false);
      } else {
        // The cell keeps its state: only the ghost view is rewritten.
        StoresUpdate2(sx, sy, data, cells, x, y, cells(x, y));
        assert data[Index2(sx, x, y) := cells(x, y)] == data;
        cells := Update2(cells, x, y, cells(x, y));
      }
    }

    /** `smooth`: one pass in raster order, rows `j` then columns `i`, on
        the grid itself, so a cell's count sees the new state of the cells
        visited before it.  With `default` false the border branch is never
        taken and every cell is smoothed exactly once; the entries past the
        last cell are kept.  On an empty axis `size - 1` panics before
        anything changes. */
    method Smooth() returns (r: Outcome<()>)
      requires Valid()
      modifies this
      ensures Valid() && |data| == |old(data)|
      ensures r.Panic? <==> sx == 0 || sy == 0
      ensures r.Panic? ==> data == old(data) && cells == old(cells)
      ensures r.Ok? ==> Smoothed2(cells, old(cells), sx, sy)
      ensures forall n :: Mul(sx, sy) <= n < |data| ==> data[n] == old(data)[n]
    {
      if sx == 0 || sy == 0 {
        return Panic;
      }
      var imax, jmax := sx - 1, sy - 1;
      var default := false;
      ghost var before := cells;
      SmoothingStart2(before, sx, sy);
      var j := 0;
      while j <= jmax
        invariant 0 <= j <= sy
        invariant Valid() && |data| == |old(data)|
        invariant Smoothing2(cells, before, sx, sy, 0, j)
        invariant forall n :: Mul(sx, sy) <= n < |data| ==> data[n] == old(data)[n]
      {
        var i := 0;
        while i <= imax
          invariant 0 <= i <= sx
          invariant Valid() && |data| == |old(data)|
          invariant Smoothing2(cells, before, sx, sy, i, j)
          invariant forall n :: Mul(sx, sy) <= n < |data| ==> data[n] == old(data)[n]
        {
          if default && (i == 0 || j == 0 || i == imax || j == jmax) {
            // `default` is `false`: the border branch is never taken.
            assert false;
          } else {
            SmoothingCell2(cells, before, sx, sy, i, j);
            CellsBelow2(sx, sy, i, j);
            SmoothCell(i, j);
          }
          i := i + 1;
        }
        SmoothingRow2(cells, before, sx, sy, j);
        j := j + 1;
      }
      r := Ok(());
    }
  }

  // ----- Raster order in 3D -----

  /** `(x, y, z)` is visited before `(i, j, k)` by loops over layers `k`,
      then rows `j`, then columns `i`. */
  predicate Before3(x: int, y: int, z: int, i: int, j: int, k: int)
  {
    z < k || (z == k && Before2(x, y, i, j))
  }

  /** What the loops of `smooth` see when they reach `(x, y, z)`. */
  function Mix3(after: (int, int, int) -> bool, before: (int, int, int) -> bool, x: int, y: int, z: int)
    : (int, int, int) -> bool
  {
    (i: int, j: int, k: int) => if Before3(i, j, k, x, y, z) then after(i, j, k) else before(i, j, k)
  }

  /** The 3D smoothing rule "13-26/13-14,17-19/2/M": with `c` live
      neighbours among the 26, off-grid ones dead, a live cell stays alive
      when `c >= 13`, a dead one comes alive when `c` is 13, 14, 17, 18 or
      19. */
  function SmoothCell3(cells: (int, int, int) -> bool, sx: nat, sy: nat, sz: nat, x: int, y: int, z: int): bool
  {
    var c := Moore26(WithBorder3(cells, sx, sy, sz, false), x, y, z);
    if cells(x, y, z) then c >= 13 else c == 13 || c == 14 || (17 <= c <= 19)
  }

  /** Part way through the loops of `smooth`, at `(i, j, k)`. */
  ghost predicate Smoothing3(cells: (int, int, int) -> bool, before: (int, int, int) -> bool, sx: nat, sy: nat, sz: nat,
                             i: int, j: int, k: int)
  {
    && (forall x, y, z {:trigger Reached3(cells, before, sx, sy, sz, x, y, z)} ::
          InGrid3(sx, sy, sz, x, y, z) && Before3(x, y, z, i, j, k) ==>
            cells(x, y, z) == Reached3(cells, before, sx, sy, sz, x, y, z))
    && (forall x, y, z {:trigger cells(x, y, z)} ::
          InGrid3(sx, sy, sz, x, y, z) && !Before3(x, y, z, i, j, k) ==> cells(x, y, z) == before(x, y, z))
  }

  /** The state the loops give the cell `(x, y, z)` when they reach it. */
  function Reached3(after: (int, int, int) -> bool, before: (int, int, int) -> bool, sx: nat, sy: nat, sz: nat,
                    x: int, y: int, z: int): bool
  {
    SmoothCell3(Mix3(after, before, x, y, z), sx, sy, sz, x, y, z)
  }

  /** `cells` is what one in-place raster pass of `smooth` makes of
      `before`. */
  ghost predicate Smoothed3(cells: (int, int, int) -> bool, before: (int, int, int) -> bool, sx: nat, sy: nat, sz: nat)
  {
    Smoothing3(cells, before, sx, sy, sz, 0, 0, sz)
  }

  /** A row of three neighbours reads alike in grids that agree on every
      in-grid cell. */
  lemma RowAgree3(a: (int, int, int) -> bool, b: (int, int, int) -> bool, sx: nat, sy: nat, sz: nat,
                  x: int, j: int, k: int)
    requires forall i, j, k :: InGrid3(sx, sy, sz, i, j, k) ==> a(i, j, k) == b(i, j, k)
    ensures Row3(WithBorder3(a, sx, sy, sz, false), x, j, k) == Row3(WithBorder3(b, sx, sy, sz, false), x, j, k)
  {
    var wa, wb := WithBorder3(a, sx, sy, sz, false), WithBorder3(b, sx, sy, sz, false);
    assert wa(x - 1, j, k) == wb(x - 1, j, k);
    assert wa(x, j, k) == wb(x, j, k);
    assert wa(x + 1, j, k) == wb(x + 1, j, k);
  }

  /** A plane of the box reads alike in grids that agree on every in-grid
      cell. */
  lemma PlaneAgree3(a: (int, int, int) -> bool, b: (int, int, int) -> bool, sx: nat, sy: nat, sz: nat,
                    x: int, y: int, k: int)
    requires forall i, j, k :: InGrid3(sx, sy, sz, i, j, k) ==> a(i, j, k) == b(i, j, k)
    ensures Plane3(WithBorder3(a, sx, sy, sz, false), x, y, k) == Plane3(WithBorder3(b, sx, sy, sz, false), x, y, k)
  {
    RowAgree3(a, b, sx, sy, sz, x, y - 1, k);
    RowAgree3(a, b, sx, sy, sz, x, y, k);
    RowAgree3(a, b, sx, sy, sz, x, y + 1, k);
  }

  /** The Moore count reads alike in grids that agree on every in-grid
      cell. */
  lemma MooreAgree3(a: (int, int, int) -> bool, b: (int, int, int) -> bool, sx: nat, sy: nat, sz: nat,
                    x: int, y: int, z: int)
    requires forall i, j, k :: InGrid3(sx, sy, sz, i, j, k) ==> a(i, j, k) == b(i, j, k)
    ensures Moore26(WithBorder3(a, sx, sy, sz, false), x, y, z) == Moore26(WithBorder3(b, sx, sy, sz, false), x, y, z)
  {
    var wa, wb := WithBorder3(a, sx, sy, sz, false), WithBorder3(b, sx, sy, sz, false);
    PlaneAgree3(a, b, sx, sy, sz, x, y, z - 1);
    PlaneAgree3(a, b, sx, sy, sz, x, y, z);
    PlaneAgree3(a, b, sx, sy, sz, x, y, z + 1);
    assert wa(x, y, z) == wb(x, y, z);
    MooreByPlanes(wa, wb, x, y, z);
  }

  /** Grids that agree on every in-grid cell smooth an in-grid cell
      alike. */
  lemma SmoothCellAgree3(a: (int, int, int) -> bool, b: (int, int, int) -> bool, sx: nat, sy: nat, sz: nat,
                         x: int, y: int, z: int)
    requires InGrid3(sx, sy, sz, x, y, z)
    requires forall i, j, k :: InGrid3(sx, sy, sz, i, j, k) ==> a(i, j, k) == b(i, j, k)
    ensures SmoothCell3(a, sx, sy, sz, x, y, z) == SmoothCell3(b, sx, sy, sz, x, y, z)
  {
    MooreAgree3(a, b, sx, sy, sz, x, y, z);
    assert a(x, y, z) == b(x, y, z);
  }

  lemma SmoothingStart3(before: (int, int, int) -> bool, sx: nat, sy: nat, sz: nat)
    ensures Smoothing3(before, before, sx, sy, sz, 0, 0, 0)
  {
  }

  /** Smoothing the in-grid cell `(i, j, k)` on the grid as it stands moves
      the pass on to `(i + 1, j, k)`. */
  lemma {:induction false} SmoothingCell3(cells: (int, int, int) -> bool, before: (int, int, int) -> bool,
                                          sx: nat, sy: nat, sz: nat, i: int, j: int, k: int)
    requires Smoothing3(cells, before, sx, sy, sz, i, j, k) && InGrid3(sx, sy, sz, i, j, k)
    ensures Smoothing3(Update3(cells, i, j, k, SmoothCell3(cells, sx, sy, sz, i, j, k)), before, sx, sy, sz, i + 1, j, k)
  {
    var next := Update3(cells, i, j, k, SmoothCell3(cells, sx, sy, sz, i, j, k));
    forall x, y, z | InGrid3(sx, sy, sz, x, y, z)
      ensures next(x, y, z) ==
        if Before3(x, y, z, i + 1, j, k) then Reached3(next, before, sx, sy, sz, x, y, z)
        else before(x, y, z)
    {
      if x == i && y == j && z == k {
        forall p, q, r | InGrid3(sx, sy, sz, p, q, r)
          ensures Mix3(next, before, i, j, k)(p, q, r) == cells(p, q, r)
        {
          assert cells(p, q, r) ==
            if Before3(p, q, r, i, j, k) then Reached3(cells, before, sx, sy, sz, p, q, r)
            else before(p, q, r);
        }
        SmoothCellAgree3(Mix3(next, before, i, j, k), cells, sx, sy, sz, i, j, k);
      } else if Before3(x, y, z, i, j, k) {
        assert cells(x, y, z) == Reached3(cells, before, sx, sy, sz, x, y, z);
        forall p, q, r | InGrid3(sx, sy, sz, p, q, r)
          ensures Mix3(next, before, x, y, z)(p, q, r) == Mix3(cells, before, x, y, z)(p, q, r)
        {
        }
        SmoothCellAgree3(Mix3(next, before, x, y, z), Mix3(cells, before, x, y, z), sx, sy, sz, x, y, z);
      } else {
        assert cells(x, y, z) == before(x, y, z);
      }
    }
  }

  /** A finished row moves the pass on to the next row. */
  lemma SmoothingRow3(cells: (int, int, int) -> bool, before: (int, int, int) -> bool, sx: nat, sy: nat, sz: nat,
                      j: int, k: int)
    requires Smoothing3(cells, before, sx, sy, sz, sx, j, k)
    ensures Smoothing3(cells, before, sx, sy, sz, 0, j + 1, k)
  {
    forall x, y, z | InGrid3(sx, sy, sz, x, y, z)
      ensures cells(x, y, z) ==
        if Before3(x, y, z, 0, j + 1, k) then Reached3(cells, before, sx, sy, sz, x, y, z)
        else before(x, y, z)
    {
      assert Before3(x, y, z, 0, j + 1, k) == Before3(x, y, z, sx, j, k);
    }
  }

  /** A finished layer moves the pass on to the next layer. */
  lemma SmoothingLayer3(cells: (int, int, int) -> bool, before: (int, int, int) -> bool, sx: nat, sy: nat, sz: nat,
                        k: int)
    requires Smoothing3(cells, before, sx, sy, sz, 0, sy, k)
    ensures Smoothing3(cells, before, sx, sy, sz, 0, 0, k + 1)
  {
    forall x, y, z | InGrid3(sx, sy, sz, x, y, z)
      ensures cells(x, y, z) ==
        if Before3(x, y, z, 0, 0, k + 1) then Reached3(cells, before, sx, sy, sz, x, y, z)
        else before(x, y, z)
    {
      assert Before3(x, y, z, 0, 0, k + 1) == Before3(x, y, z, 0, sy, k);
    }
  }

  /** Two passes over `before` that agree on the cells visited before the
      in-grid cell `(i, j, k)` agree on `(i, j, k)` too. */
  lemma SmoothedAgreeNext3(a: (int, int, int) -> bool, b: (int, int, int) -> bool, before: (int, int, int) -> bool,
                           sx: nat, sy: nat, sz: nat, i: int, j: int, k: int)
    requires Smoothed3(a, before, sx, sy, sz) && Smoothed3(b, before, sx, sy, sz) && InGrid3(sx, sy, sz, i, j, k)
    requires forall x, y, z :: InGrid3(sx, sy, sz, x, y, z) && Before3(x, y, z, i, j, k) ==> a(x, y, z) == b(x, y, z)
    ensures a(i, j, k) == b(i, j, k)
  {
    assert a(i, j, k) == Reached3(a, before, sx, sy, sz, i, j, k);
    assert b(i, j, k) == Reached3(b, before, sx, sy, sz, i, j, k);
    forall p, q, r | InGrid3(sx, sy, sz, p, q, r)
      ensures Mix3(a, before, i, j, k)(p, q, r) == Mix3(b, before, i, j, k)(p, q, r)
    {
    }
    SmoothCellAgree3(Mix3(a, before, i, j, k), Mix3(b, before, i, j, k), sx, sy, sz, i, j, k);
  }

  /** Two passes that agree before the row `(j, k)` agree on it too. */
  lemma SmoothedRowAgree3(a: (int, int, int) -> bool, b: (int, int, int) -> bool, before: (int, int, int) -> bool,
                          sx: nat, sy: nat, sz: nat, j: int, k: int)
    requires Smoothed3(a, before, sx, sy, sz) && Smoothed3(b, before, sx, sy, sz) && 0 <= j < sy && 0 <= k < sz
    requires forall x, y, z :: InGrid3(sx, sy, sz, x, y, z) && Before3(x, y, z, 0, j, k) ==> a(x, y, z) == b(x, y, z)
    ensures forall x, y, z :: InGrid3(sx, sy, sz, x, y, z) && Before3(x, y, z, 0, j + 1, k) ==> a(x, y, z) == b(x, y, z)
  {
    var i := 0;
    while i < sx
      invariant 0 <= i <= sx
      invariant forall x, y, z :: InGrid3(sx, sy, sz, x, y, z) && Before3(x, y, z, i, j, k) ==> a(x, y, z) == b(x, y, z)
    {
      SmoothedAgreeNext3(a, b, before, sx, sy, sz, i, j, k);
      i := i + 1;
    }
    forall x, y, z | InGrid3(sx, sy, sz, x, y, z) && Before3(x, y, z, 0, j + 1, k)
      ensures a(x, y, z) == b(x, y, z)
    {
      assert Before3(x, y, z, sx, j, k);
    }
  }

  /** Two passes that agree before the layer `k` agree on it too. */
  lemma SmoothedLayerAgree3(a: (int, int, int) -> bool, b: (int, int, int) -> bool, before: (int, int, int) -> bool,
                            sx: nat, sy: nat, sz: nat, k: int)
    requires Smoothed3(a, before, sx, sy, sz) && Smoothed3(b, before, sx, sy, sz) && 0 <= k < sz
    requires forall x, y, z :: InGrid3(sx, sy, sz, x, y, z) && Before3(x, y, z, 0, 0, k) ==> a(x, y, z) == b(x, y, z)
    ensures forall x, y, z :: InGrid3(sx, sy, sz, x, y, z) && Before3(x, y, z, 0, 0, k + 1) ==> a(x, y, z) == b(x, y, z)
  {
    var j := 0;
    while j < sy
      invariant 0 <= j <= sy
      invariant forall x, y, z :: InGrid3(sx, sy, sz, x, y, z) && Before3(x, y, z, 0, j, k) ==> a(x, y, z) == b(x, y, z)
    {
      SmoothedRowAgree3(a, b, before, sx, sy, sz, j, k);
      j := j + 1;
    }
    forall x, y, z | InGrid3(sx, sy, sz, x, y, z) && Before3(x, y, z, 0, 0, k + 1)
      ensures a(x, y, z) == b(x, y, z)
    {
      assert Before3(x, y, z, 0, sy, k);
    }
  }

  /** One raster pass has exactly one outcome in 3D too. */
  lemma SmoothedUnique3(a: (int, int, int) -> bool, b: (int, int, int) -> bool, before: (int, int, int) -> bool,
                        sx: nat, sy: nat, sz: nat)
    requires Smoothed3(a, before, sx, sy, sz) && Smoothed3(b, before, sx, sy, sz)
    ensures forall x, y, z :: InGrid3(sx, sy, sz, x, y, z) ==> a(x, y, z) == b(x, y, z)
  {
    var k := 0;
    while k < sz
      invariant 0 <= k <= sz
      invariant forall x, y, z :: InGrid3(sx, sy, sz, x, y, z) && Before3(x, y, z, 0, 0, k) ==> a(x, y, z) == b(x, y, z)
    {
      SmoothedLayerAgree3(a, b, before, sx, sy, sz, k);
      k := k + 1;
    }
  }

  // ----- Grid3 -----

  /** The number of cell `(x, y, z)`: `z * size.y * size.x + y * size.x + x`. */
  function Index3(sx: nat, sy: nat, x: nat, y: nat, z: nat): nat
  {
    Mul(Mul(z, sy), sx) + Index2(sx, x, y)
  }

  /** The number of cells of a grid: `size.x * size.y * size.z`, the length
      `fill` gives `data`. */
  function Volume(sx: nat, sy: nat, sz: nat): nat
  {
    Mul(Mul(sx, sy), sz)
  }

  /** Layer `z` starts at `z * (size.y * size.x)` and every cell of the
      layer lies below the next one. */
  lemma LayerBounds(sx: nat, sy: nat, sz: nat, x: int, y: int, z: int)
    requires InGrid3(sx, sy, sz, x, y, z)
    ensures Mul(z, Mul(sy, sx)) <= Index3(sx, sy, x, y, z) < Mul(z + 1, Mul(sy, sx))
    ensures Mul(z + 1, Mul(sy, sx)) <= Mul(sz, Mul(sy, sx))
  {
    MulAssoc(z, sy, sx);
    Index2Bound(sx, sy, x, y);
    MulMono(z + 1, Mul(sy, sx), sz, Mul(sy, sx));
  }

  /** Every in-grid cell has its entry below `size.x * size.y * size.z`. */
  lemma CellsBelow3(sx: nat, sy: nat, sz: nat, x: int, y: int, z: int)
    requires InGrid3(sx, sy, sz, x, y, z)
    ensures Index3(sx, sy, x, y, z) < Volume(sx, sy, sz)
  {
    LayerBounds(sx, sy, sz, x, y, z);
    MulComm(sx, sy);
    MulComm(Mul(sy, sx), sz);
  }

  /** Layer-major numbering is one-to-one on the grid. */
  lemma Index3Injective(sx: nat, sy: nat, sz: nat, x: int, y: int, z: int, x2: int, y2: int, z2: int)
    requires InGrid3(sx, sy, sz, x, y, z) && InGrid3(sx, sy, sz, x2, y2, z2)
    requires Index3(sx, sy, x, y, z) == Index3(sx, sy, x2, y2, z2)
    ensures x == x2 && y == y2 && z == z2
  {
    SameLayer(sx, sy, sz, x, y, z, x2, y2, z2);
    Index2Injective(sx, x, y, x2, y2);
  }

  /** Cells with the same number lie in the same layer. */
  lemma SameLayer(sx: nat, sy: nat, sz: nat, x: int, y: int, z: int, x2: int, y2: int, z2: int)
    requires InGrid3(sx, sy, sz, x, y, z) && InGrid3(sx, sy, sz, x2, y2, z2)
    requires Index3(sx, sy, x, y, z) == Index3(sx, sy, x2, y2, z2)
    ensures z == z2
  {
    LayerBounds(sx, sy, sz, x, y, z);
    LayerBounds(sx, sy, sz, x2, y2, z2);
    if z < z2 {
      MulMono(z + 1, Mul(sy, sx), z2, Mul(sy, sx));
    } else if z2 < z {
      MulMono(z2 + 1, Mul(sy, sx), z, Mul(sy, sx));
    }
  }

  /** The grid `data` stores, cell `(x, y, z)` being entry
      `z * size.y * size.x + y * size.x + x`. */
  function View3(sx: nat, sy: nat, data: seq<bool>): (int, int, int) -> bool
  {
    (x: int, y: int, z: int) =>
      x >= 0 && y >= 0 && z >= 0 && Index3(sx, sy, x, y, z) < |data| && data[Index3(sx, sy, x, y, z)]
  }

  /** `data` stores `cells`. */
  ghost predicate Stores3(sx: nat, sy: nat, sz: nat, data: seq<bool>, cells: (int, int, int) -> bool)
  {
    && Volume(sx, sy, sz) <= |data|
    && forall x, y, z {:trigger data[Index3(sx, sy, x, y, z)]} :: InGrid3(sx, sy, sz, x, y, z) ==>
         Index3(sx, sy, x, y, z) < |data| && cells(x, y, z) == data[Index3(sx, sy, x, y, z)]
  }

  /** Writing the entry of `(x, y, z)` stores the grid with that one cell
      changed. */
  lemma StoresUpdate3(sx: nat, sy: nat, sz: nat, data: seq<bool>, cells: (int, int, int) -> bool,
                      x: int, y: int, z: int, value: bool)
    requires Stores3(sx, sy, sz, data, cells) && InGrid3(sx, sy, sz, x, y, z)
    ensures Index3(sx, sy, x, y, z) < |data|
    ensures Stores3(sx, sy, sz, data[Index3(sx, sy, x, y, z) := value], Update3(cells, x, y, z, value))
  {
    CellsBelow3(sx, sy, sz, x, y, z);
    var data2 := data[Index3(sx, sy, x, y, z) := value];
    forall x2, y2, z2 | InGrid3(sx, sy, sz, x2, y2, z2)
      ensures Index3(sx, sy, x2, y2, z2) < |data2|
      ensures Update3(cells, x, y, z, value)(x2, y2, z2) == data2[Index3(sx, sy, x2, y2, z2)]
    {
      assert cells(x2, y2, z2) == data[Index3(sx, sy, x2, y2, z2)];
      if (x2 != x || y2 != y || z2 != z) && Index3(sx, sy, x2, y2, z2) == Index3(sx, sy, x, y, z) {
        Index3Injective(sx, sy, sz, x, y, z, x2, y2, z2);
      }
    }
  }

  class Grid3 {
    /** `size.x`, `size.y` and `size.z`, in cells. */
    const sx: nat
    const sy: nat
    const sz: nat
    /** One entry per cell, layer by layer, row by row. */
    var data: seq<bool>
    /** The state of every cell, as `data` stores it. */
    ghost var cells: (int, int, int) -> bool

    ghost predicate Valid()
      reads this
    {
      Stores3(sx, sy, sz, data, cells)
    }

    /** `Grid3::new`: no cell stored yet. */
    constructor (sx: nat, sy: nat, sz: nat)
      ensures this.sx == sx && this.sy == sy && this.sz == sz && data == []
    {
      this.sx := sx;
      this.sy := sy;
      this.sz := sz;
      data := [];
      cells := View3(sx, sy, []);
    }

    /** `fill`: resizes `data` to `size.x * size.y * size.z` entries,
        keeping the existing ones and appending `value`. */
    method Fill(value: bool)
      modifies this
      ensures Valid() && |data| == Volume(sx, sy, sz)
      ensures forall n :: 0 <= n < |data| ==> data[n] == if n < |old(data)| then old(data)[n] else value
      ensures old(data) == [] ==> forall x, y, z :: InGrid3(sx, sy, sz, x, y, z) ==> cells(x, y, z) == value
    {
      data := Resize(data, Volume(sx, sy, sz), value);
      cells := View3(sx, sy, data);
      forall x, y, z | InGrid3(sx, sy, sz, x, y, z)
        ensures Index3(sx, sy, x, y, z) < |data| && cells(x, y, z) == data[Index3(sx, sy, x, y, z)]
      {
        CellsBelow3(sx, sy, sz, x, y, z);
      }
    }

    /** `cell`: `None` exactly off the grid, otherwise entry
        `z * size.y * size.x + y * size.x + x`. */
    method Cell(x: int, y: int, z: int) returns (r: Option<bool>)
      requires Valid()
      ensures r == if InGrid3(sx, sy, sz, x, y, z) then Some(cells(x, y, z)) else None
      ensures r.Some? ==> Index3(sx, sy, x, y, z) < |data| && r.value == data[Index3(sx, sy, x, y, z)]
    {
      if x < 0 || y < 0 || z < 0 || x >= sx || y >= sy || z >= sz {
        r := None;
      } else {
        CellsBelow3(sx, sy, sz, x, y, z);
        var index := Index3(sx, sy, x, y, z);
        assert cells(x, y, z) == data[index];
        r := Some(data[index]);
      }
    }

    /** `cell_mut`: the entry a mutable reference would point at, `None`
        exactly off the grid. */
    method CellMut(x: int, y: int, z: int) returns (r: Option<nat>)
      requires Valid()
      ensures r == if InGrid3(sx, sy, sz, x, y, z) then Some(Index3(sx, sy, x, y, z)) else None
      ensures r.Some? ==> r.value < |data| && data[r.value] == cells(x, y, z)
    {
      if x < 0 || y < 0 || z < 0 || x >= sx || y >= sy || z >= sz {
        r := None;
      } else {
        CellsBelow3(sx, sy, sz, x, y, z);
        var index := Index3(sx, sy, x, y, z);
        assert cells(x, y, z) == data[index];
        r := Some(index);
      }
    }

    /** `*self.cell_mut(pos).unwrap() = value` at an in-grid position. */
    method Put(x: int, y: int, z: int, value: bool)
      requires Valid() && InGrid3(sx, sy, sz, x, y, z)
      modifies this
      ensures Valid() && |data| == |old(data)|
      ensures Index3(sx, sy, x, y, z) < |data| && data == old(data)[Index3(sx, sy, x, y, z) := value]
      ensures cells == Update3(old(cells), x, y, z, value)
    {
      var slot := CellMut(x, y, z);
      StoresUpdate3(sx, sy, sz, data, cells, x, y, z, value);
      data := data[slot.value := value];
      cells := Update3(cells, x, y, z, value);
    }

    /** `count_neighbors`: the live cells among the 26 neighbours, off-grid
        neighbours reading `default`. */
    method CountNeighbors(x: int, y: int, z: int, default: bool) returns (count: nat)
      requires Valid()
      ensures count == Moore26(WithBorder3(cells, sx, sy, sz, default), x, y, z)
    {
      ghost var alive := Without3(WithBorder3(cells, sx, sy, sz, default), x, y, z);
      count := 0;
      var k := z - 1;
      while k <= z + 1
        invariant z - 1 <= k <= z + 2
        invariant count == PlanesSum3(alive, x, y, z - 1, k)
      {
        var j := y - 1;
        while j <= y + 1
          invariant y - 1 <= j <= y + 2
          invariant count == PlanesSum3(alive, x, y, z - 1, k) + RowsSum3(alive, x, k, y - 1, j)
        {
          count := CountRow(count, x, y, z, j, k, default);
          j := j + 1;
        }
        RowsPlane3(alive, x, y, k);
        k := k + 1;
      }
      CountingLoop3(WithBorder3(cells, sx, sy, sz, default), x, y, z);
    }

    /** The innermost loop of `count_neighbors`: adds the live cells of the
        row `(j, k)` from `x - 1` to `x + 1`, the centre skipped. */
    method CountRow(count0: nat, x: int, y: int, z: int, j: int, k: int, default: bool) returns (count: nat)
      requires Valid()
      ensures count == count0 + Row3(Without3(WithBorder3(cells, sx, sy, sz, default), x, y, z), x, j, k)
    {
      ghost var alive := Without3(WithBorder3(cells, sx, sy, sz, default), x, y, z);
      count := count0;
      var i := x - 1;
      while i <= x + 1
        invariant x - 1 <= i <= x + 2
        invariant count == count0 + RunSum3(alive, j, k, x - 1, i)
      {
        var cell := Cell(i, j, k);
        if (i != x || j != y || k != z) && cell.UnwrapOr(default) {
          count := count + 1;
        }
        i := i + 1;
      }
      RunRow3(alive, x, j, k);
    }

    /** The body of the loops of `smooth` at the in-grid cell `(x, y, z)`:
        the count is taken on the grid as it stands, then the cell gets
        `c >= 13` when alive and `c` in 13, 14, 17..=19 when dead. */
    method SmoothCell(x: int, y: int, z: int)
      requires Valid() && InGrid3(sx, sy, sz, x, y, z)
      modifies this
      ensures Valid() && |data| == |old(data)|
      ensures cells == Update3(old(cells), x, y, z, SmoothCell3(old(cells), sx, sy, sz, x, y, z))
      ensures forall n :: 0 <= n < |data| && n != Index3(sx, sy, x, y, z) ==> data[n] == old(data)[n]
    {
      var c := CountNeighbors(x, y, z, false);
      var slot := CellMut(x, y, z);
      if data[slot.value] {
        Put(x, y, z, c >= 13);
      } else {
        Put(x, y, z, c == 13 || c == 14 || (c >= 17 && c <= 19));
      }
    }

    /** One row `j` of layer `k` of `smooth`: columns `i` from 0 to
        `size.x - 1`, each smoothed on the grid as it stands; the border
        branch is never taken. */
    method SmoothRow(j: int, k: int, ghost before: (int, int, int) -> bool)
      requires Valid() && 0 <= j < sy && 0 <= k < sz
      requires Smoothing3(cells, before, sx, sy, sz, 0, j, k)
      modifies this
      ensures Valid() && |data| == |old(data)|
      ensures Smoothing3(cells, before, sx, sy, sz, 0, j + 1, k)
      ensures forall n :: Volume(sx, sy, sz) <= n < |data| ==> data[n] == old(data)[n]
    {
      var imax, jmax, kmax := sx - 1, sy - 1, sz - 1;
      var default := false;
      var i := 0;
      while i <= imax
        invariant 0 <= i <= sx
        invariant Valid() && |data| == |old(data)|
        invariant Smoothing3(cells, before, sx, sy, sz, i, j, k)
        invariant forall n :: Volume(sx, sy, sz) <= n < |data| ==> data[n] == old(data)[n]
      {
        if default && (i == 0 || j == 0 || k == 0 || i == imax || j == jmax || k == kmax) {
          // `default` is `false`: the border branch is never taken.
          assert false;
        } else {
          SmoothingCell3(cells, before, sx, sy, sz, i, j, k);
          CellsBelow3(sx, sy, sz, i, j, k);
          SmoothCell(i, j, k);
        }
        i := i + 1;
      }
      SmoothingRow3(cells, before, sx, sy, sz, j, k);
    }

    /** `smooth`: one pass in raster order, layers `k`, then rows `j`, then
        columns `i`, on the grid itself; the border branch is never taken
        and every cell is smoothed exactly once.  On an empty axis
        `size - 1` panics before anything changes. */
    method Smooth() returns (r: Outcome<()>)
      requires Valid()
      modifies this
      ensures Valid() && |data| == |old(data)|
      ensures r.Panic? <==> sx == 0 || sy == 0 || sz == 0
      ensures r.Panic? ==> data == old(data) && cells == old(cells)
      ensures r.Ok? ==> Smoothed3(cells, old(cells), sx, sy, sz)
      ensures forall n :: Volume(sx, sy, sz) <= n < |data| ==> data[n] == old(data)[n]
    {
      if sx == 0 || sy == 0 || sz == 0 {
        return Panic;
      }
      var jmax, kmax := sy - 1, sz - 1;
      ghost var before := cells;
      SmoothingStart3(before, sx, sy, sz);
      var k := 0;
      while k <= kmax
        invariant 0 <= k <= sz
        invariant Valid() && |data| == |old(data)|
        invariant Smoothing3(cells, before, sx, sy, sz, 0, 0, k)
        invariant forall n :: Volume(sx, sy, sz) <= n < |data| ==> data[n] == old(data)[n]
      {
        var j := 0;
        while j <= jmax
          invariant 0 <= j <= sy
          invariant Valid() && |data| == |old(data)|
          invariant Smoothing3(cells, before, sx, sy, sz, 0, j, k)
          invariant forall n :: Volume(sx, sy, sz) <= n < |data| ==> data[n] == old(data)[n]
        {
          SmoothRow(j, k, before);
          j := j + 1;
        }
        SmoothingLayer3(cells, before, sx, sy, sz, k);
        k := k + 1;
      }
      r := Ok(());
    }
  }

  // ----- The `neighbors3` test: a 3x3x3 grid with only its centre alive -----

  function CentreOnly(): (int, int, int) -> bool
  {
    (x: int, y: int, z: int) => x == 1 && y == 1 && z == 1
  }

  /** Built as the test builds it: `fill(false)`, then the centre set
      through `cell_mut`. */
  method CentreGrid() returns (g: Grid3)
    ensures g.Valid() && g.sx == 3 && g.sy == 3 && g.sz == 3
    ensures forall x, y, z :: InGrid3(3, 3, 3, x, y, z) ==> g.cells(x, y, z) == CentreOnly()(x, y, z)
  {
    g := new Grid3(3, 3, 3);
    g.Fill(false);
    g.Put(1, 1, 1, true);
  }

  /** What `count_neighbors` reads at `(i, j, k)` of the test grid. */
  predicate CentreCell(default: bool, i: int, j: int, k: int)
  {
    if InGrid3(3, 3, 3, i, j, k) then i == 1 && j == 1 && k == 1 else default
  }

  lemma CentreReads(default: bool)
    ensures forall i, j, k :: WithBorder3(CentreOnly(), 3, 3, 3, default)(i, j, k) == CentreCell(default, i, j, k)
  {
    forall i, j, k
      ensures WithBorder3(CentreOnly(), 3, 3, 3, default)(i, j, k) == CentreCell(default, i, j, k)
    {
      assert CentreOnly()(i, j, k) == (i == 1 && j == 1 && k == 1);
    }
  }

  /** The test's expectation at `(i + 1, j + 1, k + 1)`, with its own case
      split: the centre has no live neighbour; a corner (`i*j*k != 0`)
      sees the centre, and its 19 off-grid neighbours when these read
      alive; an edge centre (two offsets non-zero) its 15; a face centre
      its 9. */
  function CentreCount(default: bool, i: int, j: int, k: int): nat
  {
    if i == 0 && j == 0 && k == 0 then 0
    else if i * j * k != 0 then (if default then 20 else 1)
    else if i * j != 0 || i * k != 0 || j * k != 0 then (if default then 16 else 1)
    else (if default then 10 else 1)
  }

  /** Off-grid cells among `x - 1 .. x + 1` for `0 <= x <= 2` on a side of 3. */
  function OffSide(x: int): nat
  {
    if x == 1 then 0 else 1
  }

  /** Off-grid cells of the 3x3 square centred on `(x, y)` of a 3x3 layer. */
  function OffSquare(x: int, y: int): nat
  {
    if x == 1 && y == 1 then 0 else if x == 1 || y == 1 then 3 else 5
  }

  lemma CentreRow(default: bool, x: int, y: int, z: int)
    requires 0 <= x <= 2
    ensures Row3(WithBorder3(CentreOnly(), 3, 3, 3, default), x, y, z)
            == if 0 <= y < 3 && 0 <= z < 3 then B(y == 1 && z == 1) + (if default then OffSide(x) else 0)
               else (if default then 3 else 0)
  {
    CentreReads(default);
  }

  lemma CentrePlane(default: bool, x: int, y: int, z: int)
    requires 0 <= x <= 2 && 0 <= y <= 2
    ensures Plane3(WithBorder3(CentreOnly(), 3, 3, 3, default), x, y, z)
            == if 0 <= z < 3 then B(z == 1) + (if default then OffSquare(x, y) else 0)
               else (if default then 9 else 0)
  {
    CentreRow(default, x, y - 1, z);
    CentreRow(default, x, y, z);
    CentreRow(default, x, y + 1, z);
  }

  /** The box around any cell of the test grid holds the centre, plus its
      off-grid cells when these read alive. */
  lemma CentreBox(default: bool, x: int, y: int, z: int)
    requires 0 <= x <= 2 && 0 <= y <= 2 && 0 <= z <= 2
    ensures Box3(WithBorder3(CentreOnly(), 3, 3, 3, default), x, y, z)
            == 1 + if default then (if z == 1 then 3 * OffSquare(x, y) else 9 + 2 * OffSquare(x, y)) else 0
  {
    CentrePlane(default, x, y, z - 1);
    CentrePlane(default, x, y, z);
    CentrePlane(default, x, y, z + 1);
  }

  /** The cell itself is alive only at the centre. */
  lemma CentreSelf(default: bool, i: int, j: int, k: int)
    requires -1 <= i <= 1 && -1 <= j <= 1 && -1 <= k <= 1
    ensures WithBorder3(CentreOnly(), 3, 3, 3, default)(i + 1, j + 1, k + 1) == (i == 0 && j == 0 && k == 0)
  {
    CentreReads(default);
  }

  /** The box count minus the cell is the test's case split. */
  lemma CentreCases(default: bool, i: int, j: int, k: int)
    requires -1 <= i <= 1 && -1 <= j <= 1 && -1 <= k <= 1
    ensures CentreCount(default, i, j, k) + B(i == 0 && j == 0 && k == 0)
            == 1 + if default then (if k == 0 then 3 * OffSquare(i + 1, j + 1) else 9 + 2 * OffSquare(i + 1, j + 1)) else 0
  {
    assert i == -1 || i == 0 || i == 1;
    assert j == -1 || j == 0 || j == 1;
    assert k == -1 || k == 0 || k == 1;
  }

  /** The test's loop over all 27 positions of the 3x3x3 grid whose
      centre alone is alive, for either `default`. */
  lemma NeighborsAround(default: bool, i: int, j: int, k: int)
    requires -1 <= i <= 1 && -1 <= j <= 1 && -1 <= k <= 1
    ensures Moore26(WithBorder3(CentreOnly(), 3, 3, 3, default), i + 1, j + 1, k + 1) == CentreCount(default, i, j, k)
  {
    BoxMoore3(WithBorder3(CentreOnly(), 3, 3, 3, default), i + 1, j + 1, k + 1);
    CentreBox(default, i + 1, j + 1, k + 1);
    CentreSelf(default, i, j, k);
    CentreCases(default, i, j, k);
  }
}
