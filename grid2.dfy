/** The bit-packed 2D grid of the engine.  Cells are numbered row by row,
    `y * size.x + x`, and cell number `n` is bit `n % 64` of block `n / 64`
    (the source's `index >> 6` and `index & 0x3F`). */
module CytogonGrid2 {
  import opened Words
  import opened Lattice
  import opened CytogonRules

  /** `get_bitblock_count`: one block per 8x8 cells, rounded up. */
  function BitblockCount(sx: nat, sy: nat): nat
  {
    Mul(DivCeil(sx, 8), DivCeil(sy, 8))
  }

  /** Enough blocks are allocated: the block of every in-grid cell exists. */
  lemma CountCovers(sx: nat, sy: nat)
    ensures Mul(sy, sx) <= 64 * BitblockCount(sx, sy)
  {
    var cx, cy := DivCeil(sx, 8), DivCeil(sy, 8);
    MulMono(sy, sx, 8 * cy, 8 * cx);
    BlockProduct(cx, cy);
  }

  lemma BlockProduct(cx: nat, cy: nat)
    ensures Mul(8 * cy, 8 * cx) == 64 * Mul(cx, cy)
  {
    MulEight(cy, 8 * cx);
    MulComm(cy, 8 * cx);
    MulEight(cx, cy);
  }

  /** Eight rows of blocks: `Mul(8 * a, b) == 8 * Mul(a, b)`. */
  lemma {:induction false} MulEight(a: nat, b: nat)
    ensures Mul(8 * a, b) == 8 * Mul(a, b)
  {
    if a > 0 {
      MulAdd(8 * (a - 1), 8, b);
      MulIsProduct(8, b);
      MulEight(a - 1, b);
    }
  }

  /** Every in-grid cell has its block among `blocks` blocks once these
      cover the grid. */
  lemma CellBlocks(sx: nat, sy: nat, blocks: nat)
    requires Mul(sy, sx) <= 64 * blocks
    ensures forall x, y :: InGrid2(sx, sy, x, y) ==> Index2(sx, x, y) / 64 < blocks
  {
    forall x, y | InGrid2(sx, sy, x, y)
      ensures Index2(sx, x, y) / 64 < blocks
    {
      Index2Bound(sx, sy, x, y);
    }
  }

  /** `index >> 6 < get_bitblock_count(size)` for every in-grid position. */
  lemma BlockInRange(sx: nat, sy: nat, x: int, y: int)
    requires InGrid2(sx, sy, x, y)
    ensures Index2(sx, x, y) / 64 < BitblockCount(sx, sy)
  {
    Index2Bound(sx, sy, x, y);
    CountCovers(sx, sy);
  }

  /** The rule step of one cell: a live cell survives when `survive` holds
      its count, a dead one is born when `birth` does. */
  function Next2(rule: Rule2, alive: bool, c: nat): bool
    requires c < 16
  {
    if alive then rule.survive.Has(c) else rule.birth.Has(c)
  }


  /** The cells that `data` encodes, cell `(x, y)` being bit `y * size.x + x`. */
  function Unpack2(sx: nat, data: seq<Word64>): (int, int) -> bool
  {
    (x: int, y: int) => x >= 0 && y >= 0 && Packed(data, Index2(sx, x, y))
  }

  /** The next generation of every cell under `rule`, neighbours off the grid
      counting as dead: the textbook synchronous birth/survive step. */
  function Step2(rule: Rule2, cells: (int, int) -> bool, sx: nat, sy: nat): (int, int) -> bool
  {
    (x: int, y: int) => Next2(rule, cells(x, y), Moore8(WithBorder2(cells, sx, sy, false), x, y))
  }

  /** `data` encodes `cells`: cell `(x, y)` of the grid is bit
      `y * size.x + x`. */
  ghost predicate Represents2(sx: nat, sy: nat, data: seq<Word64>, cells: (int, int) -> bool)
  {
    forall x, y {:trigger Packed(data, Index2(sx, x, y))} ::
      InGrid2(sx, sy, x, y) ==> cells(x, y) == Packed(data, Index2(sx, x, y))
  }

  /** Writing `value` at the bit of the in-grid cell `(x, y)` encodes the
      grid with that one cell changed. */
  lemma RepresentsUpdate2(sx: nat, sy: nat, data: seq<Word64>, cells: (int, int) -> bool, x: int, y: int, value: bool,
                          data2: seq<Word64>)
    requires Represents2(sx, sy, data, cells) && InGrid2(sx, sy, x, y)
    requires Index2(sx, x, y) / 64 < |data|
    requires data2 == data[Index2(sx, x, y) / 64 := data[Index2(sx, x, y) / 64][Index2(sx, x, y) % 64 := value]]
    ensures Represents2(sx, sy, data2, Update2(cells, x, y, value))
  {
    var index := Index2(sx, x, y);
    Index2Bound(sx, sy, x, y);
    forall x2, y2 | InGrid2(sx, sy, x2, y2)
      ensures Update2(cells, x, y, value)(x2, y2) == Packed(data2, Index2(sx, x2, y2))
    {
      assert cells(x2, y2) == Packed(data, Index2(sx, x2, y2));
      if x2 != x || y2 != y {
        if Index2(sx, x2, y2) == index {
          Index2Injective(sx, x, y, x2, y2);
        }
      }
    }
  }

  /** Part way through the loops of `apply_rule`, at `(i, j)`: the cells
      visited, row by row, hold their next state, the others their state
      before the step. */
  ghost predicate Progress(cells: (int, int) -> bool, before: (int, int) -> bool, next: (int, int) -> bool,
                           sx: nat, sy: nat, i: int, j: int)
  {
    forall x, y {:trigger cells(x, y)} :: InGrid2(sx, sy, x, y) ==>
      cells(x, y) == if y < j || (y == j && x < i) then next(x, y) else before(x, y)
  }

  /** Nothing is visited at the start. */
  lemma ProgressStart(before: (int, int) -> bool, next: (int, int) -> bool, sx: nat, sy: nat)
    ensures Progress(before, before, next, sx, sy, 0, 0)
  {
  }

  /** Visiting `(i, j)` moves on to `(i + 1, j)`. */
  lemma ProgressCell(cells: (int, int) -> bool, before: (int, int) -> bool, next: (int, int) -> bool,
                     sx: nat, sy: nat, i: int, j: int)
    requires Progress(cells, before, next, sx, sy, i, j)
    ensures InGrid2(sx, sy, i, j) ==> cells(i, j) == before(i, j)
    ensures Progress(Update2(cells, i, j, next(i, j)), before, next, sx, sy, i + 1, j)
  {
    if InGrid2(sx, sy, i, j) {
      assert cells(i, j) == before(i, j);
    }
  }

  /** A finished row moves on to the next row. */
  lemma ProgressRow(cells: (int, int) -> bool, before: (int, int) -> bool, next: (int, int) -> bool,
                    sx: nat, sy: nat, j: int)
    requires Progress(cells, before, next, sx, sy, sx, j)
    ensures Progress(cells, before, next, sx, sy, 0, j + 1)
  {
    forall x, y | InGrid2(sx, sy, x, y)
      ensures cells(x, y) == if y < j + 1 then next(x, y) else before(x, y)
    {
      assert (y < j + 1) == (y < j || (y == j && x < sx));
    }
  }

  /** After the last row every cell holds its next state. */
  lemma ProgressEnd(cells: (int, int) -> bool, before: (int, int) -> bool, next: (int, int) -> bool, sx: nat, sy: nat)
    requires Progress(cells, before, next, sx, sy, 0, sy)
    ensures forall x, y :: InGrid2(sx, sy, x, y) ==> cells(x, y) == next(x, y)
  {
    forall x, y | InGrid2(sx, sy, x, y)
      ensures cells(x, y) == next(x, y)
    {
      assert y < sy;
    }
  }

  /** One step of the inner counting loop of `count_neighbors`: the run of
      row `j` grows by the cell `(i, j)`, read through `cell` with `default`
      off the grid, the centre skipped. */
  lemma RunStep(cells: (int, int) -> bool, sx: nat, sy: nat, default: bool, x: int, y: int, i: int, j: int)
    requires x - 1 <= i
    ensures var alive := Without2(WithBorder2(cells, sx, sy, default), x, y);
      RunSum2(alive, j, x - 1, i + 1) == RunSum2(alive, j, x - 1, i)
        + B((i != x || j != y) && (if InGrid2(sx, sy, i, j) then cells(i, j) else default))
  {
  }

  class Grid2 {
    /** `size.x` and `size.y`, in cells. */
    const sx: nat
    const sy: nat
    /** The bit blocks. */
    var data: seq<Word64>
    /** The state of every cell of the grid, as `data` encodes it. */
    ghost var cells: (int, int) -> bool

    /** Every cell has its bit in `data` (what `cell` needs not to panic), and
        `cells` is what `data` encodes. */
    ghost predicate Valid()
      reads this
    {
      && Mul(sy, sx) <= 64 * |data|
      && Represents2(sx, sy, data, cells)
    }

    /** `Grid2::new`: no block allocated yet. */
    constructor (sx: nat, sy: nat)
      ensures this.sx == sx && this.sy == sy && data == []
    {
      this.sx := sx;
      this.sy := sy;
      data := [];
      cells := Unpack2(sx, []);
    }

    /** `fill`: resizes the blocks to `get_bitblock_count`, appending all-ones
        or all-zeros blocks; existing blocks are kept, so only a grid without
        blocks is filled with `value` throughout. */
    method Fill(value: bool)
      modifies this
      ensures Valid() && |data| == BitblockCount(sx, sy)
      ensures forall b :: 0 <= b < |data| ==>
        data[b] == if b < |old(data)| then old(data)[b] else Span(64, 0, if value then 64 else 0)
      ensures old(data) == [] ==> forall x, y :: InGrid2(sx, sy, x, y) ==> cells(x, y) == value
    {
      CountCovers(sx, sy);
      CellBlocks(sx, sy, BitblockCount(sx, sy));
      var word := if value then Span(64, 0, 64) else Span(64, 0, 0);
      data := Resize(data, BitblockCount(sx, sy), word);
      cells := Unpack2(sx, data);
      forall x, y | InGrid2(sx, sy, x, y)
        ensures cells(x, y) == Packed(data, Index2(sx, x, y))
      {
      }
    }

    /** `cell`: the state of the cell at `(x, y)`, `None` off the grid. */
    method Cell(x: int, y: int) returns (r: Option<bool>)
      requires Valid()
      ensures r == if InGrid2(sx, sy, x, y) then Some(cells(x, y)) else None
    {
      if x < 0 || y < 0 || x >= sx || y >= sy {
        r := None;
      } else {
        Index2Bound(sx, sy, x, y);
        var index := Index2(sx, x, y);
        assert cells(x, y) == Packed(data, index);
        r := Some(data[index / 64][index % 64]);
      }
    }

    /** `set_cell`: sets bit `index & 63` of block `index >> 6` to `value`;
        off the grid it does nothing.  No other cell changes. */
    method SetCell(x: int, y: int, value: bool)
      requires Valid()
      modifies this
      ensures Valid() && |data| == |old(data)|
      ensures !InGrid2(sx, sy, x, y) ==> data == old(data) && cells == old(cells)
      ensures InGrid2(sx, sy, x, y) ==>
        var n := Index2(sx, x, y);
        && n / 64 < |data|
        && data == old(data)[n / 64 := old(data)[n / 64][n % 64 := value]]
        && cells == Update2(old(cells), x, y, value)
      ensures forall n :: Mul(sy, sx) <= n ==> Packed(data, n) == Packed(old(data), n)
    {
      if InGrid2(sx, sy, x, y) {
        CellBlocks(sx, sy, |data|);
        var index := Index2(sx, x, y);
        var i0 := index / 64;
        var i1 := Bit(64, index % 64);
        if value {
          data := data[i0 := Or(data[i0], i1)];
        } else {
          data := data[i0 := And(data[i0], Not(i1))];
        }
        assert data[i0] == old(data)[i0][index % 64 := value];
        Index2Bound(sx, sy, x, y);
        RepresentsUpdate2(sx, sy, old(data), cells, x, y, value, data);
        cells := Update2(cells, x, y, value);
      }
    }

    /** `count_neighbors`: the live cells among the 8 neighbours, off-grid
        neighbours reading `default`. */
    method CountNeighbors(x: int, y: int, default: bool) returns (count: nat)
      requires Valid()
      ensures count == Moore8(WithBorder2(cells, sx, sy, default), x, y)
    {
      ghost var alive := Without2(WithBorder2(cells, sx, sy, default), x, y);
      count := 0;
      var j := y - 1;
      while j <= y + 1
        invariant y - 1 <= j <= y + 2
        invariant count == RowsSum2(alive, x, y - 1, j)
      {
        var i := x - 1;
        while i <= x + 1
          invariant x - 1 <= i <= x + 2
          invariant count == RowsSum2(alive, x, y - 1, j) + RunSum2(alive, j, x - 1, i)
        {
          var cell := Cell(i, j);
          RunStep(cells, sx, sy, default, x, y, i, j);
          if (i != x || j != y) && cell.UnwrapOr(default) {
            count := count + 1;
          }
          i := i + 1;
        }
        RunRow2(alive, x, j);
        j := j + 1;
      }
      CountingLoop2(WithBorder2(cells, sx, sy, default), x, y);
    }

    /** The body of the loops of `apply_rule` for the in-grid cell `(x, y)`:
        its count is taken on `oldGrid`, the copy made before the step, and
        the cell is cleared when alive and `survive` lacks the count, set
        when dead and `birth` has it. */
    method StepCell(rule: Rule2, oldGrid: Grid2, survive: seq<bool>, birth: seq<bool>, x: int, y: int,
                    ghost before: (int, int) -> bool)
      requires Valid() && InGrid2(sx, sy, x, y) && cells(x, y) == before(x, y)
      requires oldGrid != this && oldGrid.Valid() && oldGrid.sx == sx && oldGrid.sy == sy && oldGrid.cells == before
      requires survive == rule.survive.ToArray() && birth == rule.birth.ToArray()
      modifies this
      ensures Valid() && |data| == |old(data)|
      ensures cells == Update2(old(cells), x, y, Step2(rule, before, sx, sy)(x, y))
      ensures forall n :: Mul(sy, sx) <= n ==> Packed(data, n) == Packed(old(data), n)
    {
      var c := oldGrid.CountNeighbors(x, y, false);
      var cell := Cell(x, y);
      if cell.UnwrapOr(false) {
        if !survive[c] {
          SetCell(x, y, false);
        }
      } else {
        if birth[c] {
          SetCell(x, y, true);
        }
      }
      if cells == old(cells) {
        // The cell keeps its state: only the ghost view is rewritten.
        cells := Update2(cells, x, y, cells(x, y));
      }
    }

    /** `apply_rule`: one synchronous step, `size - 1` panicking on an
        empty axis before anything changes.  Counts are taken on a copy of
        the grid made before the step, so every cell's next state depends on
        the previous generation only; the bits past the last cell are kept. */
    method ApplyRule(rule: Rule2) returns (r: Outcome<()>)
      requires Valid()
      modifies this
      ensures Valid() && |data| == |old(data)|
      ensures r.Panic? <==> sx == 0 || sy == 0
      ensures r.Panic? ==> data == old(data) && cells == old(cells)
      ensures r.Ok? ==> forall x, y :: InGrid2(sx, sy, x, y) ==> cells(x, y) == Step2(rule, old(cells), sx, sy)(x, y)
      ensures forall n :: Mul(sy, sx) <= n ==> Packed(data, n) == Packed(old(data), n)
    {
      if sx == 0 || sy == 0 {
        return Panic;
      }
      var imax, jmax := sx - 1, sy - 1;
      var default := false;
      var oldGrid := new Grid2(sx, sy);
      oldGrid.data, oldGrid.cells := data, cells;
      ghost var before := cells;
      ghost var next := Step2(rule, before, sx, sy);
      var survive := rule.survive.ToArray();
      var birth := rule.birth.ToArray();
      ProgressStart(before, next, sx, sy);
      var j := 0;
      while j <= jmax
        invariant 0 <= j <= sy
        invariant fresh(oldGrid) && oldGrid.Valid() && oldGrid.sx == sx && oldGrid.sy == sy && oldGrid.cells == before
        invariant Valid() && |data| == |old(data)|
        invariant Progress(cells, before, next, sx, sy, 0, j)
        invariant forall n :: Mul(sy, sx) <= n ==> Packed(data, n) == Packed(old(data), n)
      {
        var i := 0;
        while i <= imax
          invariant 0 <= i <= sx
          invariant oldGrid.Valid() && oldGrid.cells == before
          invariant Valid() && |data| == |old(data)|
          invariant Progress(cells, before, next, sx, sy, i, j)
          invariant forall n :: Mul(sy, sx) <= n ==> Packed(data, n) == Packed(old(data), n)
        {
          if default && (i == 0 || j == 0 || i == imax || j == jmax) {
            // `default` is `false`: the border branch is never taken.
            assert false;
          } else {
            ProgressCell(cells, before, next, sx, sy, i, j);
            StepCell(rule, oldGrid, survive, birth, i, j, before);
          }
          i := i + 1;
        }
        ProgressRow(cells, before, next, sx, sy, j);
        j := j + 1;
      }
      ProgressEnd(cells, before, next, sx, sy);
      r := Ok(());
    }
  }
}
