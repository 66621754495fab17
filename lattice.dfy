/** The Moore neighbourhood every grid of the repository counts: the 8
    cells around a 2D position and the 26 cells around a 3D one.  A grid is
    seen here through its `alive` function on integer positions, which
    answers for off-grid positions too (with the grid's `default`). */
module Lattice {

  /** What `cell` returns: `None` off the grid. */
  datatype Option<T> = None | Some(value: T)
  {
    /** `Option::unwrap_or`. */
    function UnwrapOr(default: T): T
    {
      if Some? then value else default
    }
  }

  /** What a call that may panic (an `assert!`, an `unwrap` of `None`, a
      `usize` subtraction that underflows in a debug build) returns: a
      value, or a panic. */
  datatype Outcome<T> = Ok(value: T) | Panic

  /** `Vec::resize`: keeps the first `n` elements and appends copies of `v`
      up to length `n`. */
  function Resize<T>(s: seq<T>, n: nat, v: T): (r: seq<T>)
    ensures |r| == n
    ensures forall i :: 0 <= i < n ==> r[i] == if i < |s| then s[i] else v
  {
    if n <= |s| then s[..n] else s + seq(n - |s|, _ => v)
  }

  /** `u32::div_ceil`. */
  function DivCeil(a: nat, d: nat): (q: nat)
    requires d > 0
    ensures a <= q * d < a + d
  {
    (a + d - 1) / d
  }

  /** The product `a * b`, as repeated addition.  Grid sizes and indices
      are multiplied through this function so that only the lemmas below
      reason about products. */
  function Mul(a: nat, b: nat): nat
  {
    if a == 0 then 0 else Mul(a - 1, b) + b
  }

  lemma {:induction false} MulIsProduct(a: nat, b: nat)
    ensures Mul(a, b) == a * b
  {
    if a > 0 {
      MulIsProduct(a - 1, b);
    }
  }

  lemma {:induction false} MulAdd(a: nat, b: nat, c: nat)
    ensures Mul(a + b, c) == Mul(a, c) + Mul(b, c)
  {
    if b > 0 {
      MulAdd(a, b - 1, c);
    }
  }

  lemma {:induction false} MulAssoc(a: nat, b: nat, c: nat)
    ensures Mul(Mul(a, b), c) == Mul(a, Mul(b, c))
  {
    if a > 0 {
      MulAdd(Mul(a - 1, b), b, c);
      MulAssoc(a - 1, b, c);
    }
  }

  /** Products with the same factor keep the order of the other factor. */
  lemma MulCancelLess(a: nat, b: nat, c: nat)
    requires Mul(a, c) < Mul(b, c)
    ensures a < b
  {
    if a >= b {
      MulMono(b, c, a, c);
      assert false;
    }
  }

  lemma MulComm(a: nat, b: nat)
    ensures Mul(a, b) == Mul(b, a)
  {
    MulIsProduct(a, b);
    MulIsProduct(b, a);
  }

  lemma MulMono(a: nat, b: nat, c: nat, d: nat)
    requires a <= c && b <= d
    ensures Mul(a, b) <= Mul(c, d)
  {
    MulIsProduct(a, b);
    MulIsProduct(c, d);
    assert a * b <= c * b;
    assert c * b <= c * d;
  }

  /** Euclidean division by `d`, stated with `Mul`. */
  lemma DivMod(n: nat, d: nat)
    requires d > 0
    ensures n == Mul(n / d, d) + n % d && n % d < d
  {
    MulIsProduct(n / d, d);
  }

  /** Division by `d` undoes `Mul(q, d) + r` for a remainder `r < d`. */
  lemma DivUnique(n: nat, d: nat, q: nat, r: nat)
    requires d > 0 && r < d && n == Mul(q, d) + r
    ensures n / d == q
  {
    var q0 := n / d;
    DivMod(n, d);
    if q0 < q {
      assert Mul(q0 + 1, d) == Mul(q0, d) + d;
      MulMono(q0 + 1, d, q, d);
    } else if q0 > q {
      assert Mul(q + 1, d) == Mul(q, d) + d;
      MulMono(q + 1, d, q0, d);
    }
  }

  /** The quotient of `b` below `Mul(m, n)` by `n` is below `m`. */
  lemma DivBelow(b: nat, m: nat, n: nat)
    requires b < Mul(m, n)
    ensures n > 0 && b / n < m && b == Mul(b / n, n) + b % n
  {
    if n == 0 {
      MulComm(m, n);
    }
    DivMod(b, n);
    if b / n >= m {
      MulMono(m, n, b / n, n);
    }
  }

  predicate InGrid2(sx: nat, sy: nat, x: int, y: int)
  {
    0 <= x < sx && 0 <= y < sy
  }

  predicate InGrid3(sx: nat, sy: nat, sz: nat, x: int, y: int, z: int)
  {
    0 <= x < sx && 0 <= y < sy && 0 <= z < sz
  }

  /** The cells of a 2D grid, `default` off the grid: how the neighbour
      counts read a grid through `cell(pos).unwrap_or(default)`. */
  function WithBorder2(cells: (int, int) -> bool, sx: nat, sy: nat, default: bool): (int, int) -> bool
  {
    (x: int, y: int) => if InGrid2(sx, sy, x, y) then cells(x, y) else default
  }

  /** The cells of a 3D grid, `default` off the grid. */
  function WithBorder3(cells: (int, int, int) -> bool, sx: nat, sy: nat, sz: nat, default: bool): (int, int, int) -> bool
  {
    (x: int, y: int, z: int) => if InGrid3(sx, sy, sz, x, y, z) then cells(x, y, z) else default
  }

  /** `cells` with the cell `(x, y)` set to `value`. */
  function Update2(cells: (int, int) -> bool, x: int, y: int, value: bool): (int, int) -> bool
  {
    (i: int, j: int) => if i == x && j == y then value else cells(i, j)
  }

  /** `cells` with the cell `(x, y, z)` set to `value`. */
  function Update3(cells: (int, int, int) -> bool, x: int, y: int, z: int, value: bool): (int, int, int) -> bool
  {
    (i: int, j: int, k: int) => if i == x && j == y && k == z then value else cells(i, j, k)
  }

  /** The row-major number of cell `(x, y)`: `y * size.x + x`. */
  function Index2(sx: nat, x: nat, y: nat): nat
  {
    Mul(y, sx) + x
  }

  /** Row-major numbering sends the grid one-to-one onto `0..sx * sy`. */
  lemma Index2Bound(sx: nat, sy: nat, x: nat, y: nat)
    requires InGrid2(sx, sy, x, y)
    ensures Index2(sx, x, y) < Mul(sy, sx)
  {
    MulMono(y + 1, sx, sy, sx);
  }

  lemma Index2Injective(sx: nat, x: nat, y: nat, x2: nat, y2: nat)
    requires x < sx && x2 < sx
    requires Index2(sx, x, y) == Index2(sx, x2, y2)
    ensures x == x2 && y == y2
  {
    if y < y2 {
      MulMono(y + 1, sx, y2, sx);
    } else if y2 < y {
      MulMono(y2 + 1, sx, y, sx);
    }
  }

  function B(b: bool): nat
  {
    if b then 1 else 0
  }

  /** Live cells among the 8 neighbours of `(x, y)`, one term per neighbour. */
  function Moore8(alive: (int, int) -> bool, x: int, y: int): (c: nat)
    ensures c <= 8
  {
      B(alive(x - 1, y - 1)) + B(alive(x, y - 1))
    + B(alive(x + 1, y - 1)) + B(alive(x - 1, y))
    + B(alive(x + 1, y)) + B(alive(x - 1, y + 1))
    + B(alive(x, y + 1)) + B(alive(x + 1, y + 1))
  }

  /** Live cells of row `y` from `x - 1` to `x + 1`. */
  function Row2(alive: (int, int) -> bool, x: int, y: int): nat
  {
    B(alive(x - 1, y)) + B(alive(x, y)) + B(alive(x + 1, y))
  }

  /** Live cells of the 3x3 window centred on `(x, y)`, the cell included. */
  function Window2(alive: (int, int) -> bool, x: int, y: int): nat
  {
    Row2(alive, x, y - 1) + Row2(alive, x, y) + Row2(alive, x, y + 1)
  }

  /** The window minus its centre is the Moore count, which is at most 8. */
  lemma WindowMoore2(alive: (int, int) -> bool, x: int, y: int)
    ensures Window2(alive, x, y) == Moore8(alive, x, y) + B(alive(x, y))
    ensures Moore8(alive, x, y) <= 8
  {
  }

  /** Live cells among the 26 neighbours of `(x, y, z)`, one term per neighbour. */
  function Moore26(alive: (int, int, int) -> bool, x: int, y: int, z: int): (c: nat)
    ensures c <= 26
  {
      B(alive(x - 1, y - 1, z - 1)) + B(alive(x, y - 1, z - 1))
    + B(alive(x + 1, y - 1, z - 1)) + B(alive(x - 1, y, z - 1))
    + B(alive(x, y, z - 1)) + B(alive(x + 1, y, z - 1))
    + B(alive(x - 1, y + 1, z - 1)) + B(alive(x, y + 1, z - 1))
    + B(alive(x + 1, y + 1, z - 1)) + B(alive(x - 1, y - 1, z))
    + B(alive(x, y - 1, z)) + B(alive(x + 1, y - 1, z))
    + B(alive(x - 1, y, z)) + B(alive(x + 1, y, z))
    + B(alive(x - 1, y + 1, z)) + B(alive(x, y + 1, z))
    + B(alive(x + 1, y + 1, z)) + B(alive(x - 1, y - 1, z + 1))
    + B(alive(x, y - 1, z + 1)) + B(alive(x + 1, y - 1, z + 1))
    + B(alive(x - 1, y, z + 1)) + B(alive(x, y, z + 1))
    + B(alive(x + 1, y, z + 1)) + B(alive(x - 1, y + 1, z + 1))
    + B(alive(x, y + 1, z + 1)) + B(alive(x + 1, y + 1, z + 1))
  }

  /** Live cells of the row at `(y, z)` from `x - 1` to `x + 1`. */
  function Row3(alive: (int, int, int) -> bool, x: int, y: int, z: int): nat
  {
    B(alive(x - 1, y, z)) + B(alive(x, y, z)) + B(alive(x + 1, y, z))
  }

  /** Live cells of the 3x3 square of layer `z` centred on `(x, y)`. */
  function Plane3(alive: (int, int, int) -> bool, x: int, y: int, z: int): nat
  {
    Row3(alive, x, y - 1, z) + Row3(alive, x, y, z) + Row3(alive, x, y + 1, z)
  }

  /** Live cells of the 3x3x3 box centred on `(x, y, z)`, the cell included. */
  function Box3(alive: (int, int, int) -> bool, x: int, y: int, z: int): nat
  {
    Plane3(alive, x, y, z - 1) + Plane3(alive, x, y, z) + Plane3(alive, x, y, z + 1)
  }

  /** The box minus its centre is the Moore count, which is at most 26. */
  lemma BoxMoore3(alive: (int, int, int) -> bool, x: int, y: int, z: int)
    ensures Box3(alive, x, y, z) == Moore26(alive, x, y, z) + B(alive(x, y, z))
    ensures Moore26(alive, x, y, z) <= 26
  {
  }

  /** Two cell functions that agree everywhere give the same Moore count. */
  lemma MooreSame(a: (int, int, int) -> bool, b: (int, int, int) -> bool, x: int, y: int, z: int)
    requires forall x2, y2, z2 :: a(x2, y2, z2) == b(x2, y2, z2)
    ensures Moore26(a, x, y, z) == Moore26(b, x, y, z)
  {
    forall k | z - 1 <= k <= z + 1
      ensures Plane3(a, x, y, k) == Plane3(b, x, y, k)
    {
      assert Row3(a, x, y - 1, k) == Row3(b, x, y - 1, k);
      assert Row3(a, x, y, k) == Row3(b, x, y, k);
      assert Row3(a, x, y + 1, k) == Row3(b, x, y + 1, k);
    }
    MooreByPlanes(a, b, x, y, z);
  }

  /** Two boxes whose planes and centres agree give the same Moore count. */
  lemma MooreByPlanes(a: (int, int, int) -> bool, b: (int, int, int) -> bool, x: int, y: int, z: int)
    requires a(x, y, z) == b(x, y, z)
    requires Plane3(a, x, y, z - 1) == Plane3(b, x, y, z - 1)
    requires Plane3(a, x, y, z) == Plane3(b, x, y, z)
    requires Plane3(a, x, y, z + 1) == Plane3(b, x, y, z + 1)
    ensures Moore26(a, x, y, z) == Moore26(b, x, y, z)
  {
    BoxMoore3(a, x, y, z);
    BoxMoore3(b, x, y, z);
  }

  /** Live cells of row `y` from `lo` to `hi - 1`, added left to right as
      the counting loops of the grids do. */
  function RunSum2(alive: (int, int) -> bool, y: int, lo: int, hi: int): nat
    decreases hi - lo
  {
    if hi <= lo then 0 else RunSum2(alive, y, lo, hi - 1) + B(alive(hi - 1, y))
  }

  /** The rows `lo..hi` of the column `x - 1..x + 1`, added row by row. */
  function RowsSum2(alive: (int, int) -> bool, x: int, lo: int, hi: int): nat
    decreases hi - lo
  {
    if hi <= lo then 0 else RowsSum2(alive, x, lo, hi - 1) + Row2(alive, x, hi - 1)
  }

  /** `alive` with the cell `(x, y)` read as dead: what a counting loop that
      skips the centre adds up. */
  function Without2(alive: (int, int) -> bool, x: int, y: int): (int, int) -> bool
  {
    (i: int, j: int) => (i != x || j != y) && alive(i, j)
  }

  /** A loop over the 3x3 window, rows then columns, that skips the centre
      counts the Moore neighbours. */
  lemma CountingLoop2(alive: (int, int) -> bool, x: int, y: int)
    ensures RowsSum2(Without2(alive, x, y), x, y - 1, y + 2) == Moore8(alive, x, y)
  {
    var w := Without2(alive, x, y);
    RowsWindow2(w, x, y);
    assert Row2(w, x, y - 1) == Row2(alive, x, y - 1);
    assert Row2(w, x, y + 1) == Row2(alive, x, y + 1);
    assert Row2(w, x, y) + B(alive(x, y)) == Row2(alive, x, y);
    WindowMoore2(alive, x, y);
  }

  lemma RunRow2(alive: (int, int) -> bool, x: int, y: int)
    ensures RunSum2(alive, y, x - 1, x + 2) == Row2(alive, x, y)
  {
    assert RunSum2(alive, y, x - 1, x - 1) == 0;
    assert RunSum2(alive, y, x - 1, x) == RunSum2(alive, y, x - 1, x - 1) + B(alive(x - 1, y));
    assert RunSum2(alive, y, x - 1, x + 1) == RunSum2(alive, y, x - 1, x) + B(alive(x, y));
    assert RunSum2(alive, y, x - 1, x + 2) == RunSum2(alive, y, x - 1, x + 1) + B(alive(x + 1, y));
  }

  lemma RowsWindow2(alive: (int, int) -> bool, x: int, y: int)
    ensures RowsSum2(alive, x, y - 1, y + 2) == Window2(alive, x, y)
  {
    assert RowsSum2(alive, x, y - 1, y - 1) == 0;
    assert RowsSum2(alive, x, y - 1, y) == RowsSum2(alive, x, y - 1, y - 1) + Row2(alive, x, y - 1);
    assert RowsSum2(alive, x, y - 1, y + 1) == RowsSum2(alive, x, y - 1, y) + Row2(alive, x, y);
    assert RowsSum2(alive, x, y - 1, y + 2) == RowsSum2(alive, x, y - 1, y + 1) + Row2(alive, x, y + 1);
  }

  /** Live cells of the row at `(y, z)` from `lo` to `hi - 1`. */
  function RunSum3(alive: (int, int, int) -> bool, y: int, z: int, lo: int, hi: int): nat
    decreases hi - lo
  {
    if hi <= lo then 0 else RunSum3(alive, y, z, lo, hi - 1) + B(alive(hi - 1, y, z))
  }

  /** The rows `lo..hi` of layer `z` over the column `x - 1..x + 1`. */
  function RowsSum3(alive: (int, int, int) -> bool, x: int, z: int, lo: int, hi: int): nat
    decreases hi - lo
  {
    if hi <= lo then 0 else RowsSum3(alive, x, z, lo, hi - 1) + Row3(alive, x, hi - 1, z)
  }

  /** The layers `lo..hi` of the 3x3 square around `(x, y)`. */
  function PlanesSum3(alive: (int, int, int) -> bool, x: int, y: int, lo: int, hi: int): nat
    decreases hi - lo
  {
    if hi <= lo then 0 else PlanesSum3(alive, x, y, lo, hi - 1) + Plane3(alive, x, y, hi - 1)
  }

  /** `alive` with the cell `(x, y, z)` read as dead. */
  function Without3(alive: (int, int, int) -> bool, x: int, y: int, z: int): (int, int, int) -> bool
  {
    (i: int, j: int, k: int) => (i != x || j != y || k != z) && alive(i, j, k)
  }

  lemma RowOff3(alive: (int, int, int) -> bool, x: int, y: int, z: int, j: int, k: int)
    requires j != y || k != z
    ensures Row3(Without3(alive, x, y, z), x, j, k) == Row3(alive, x, j, k)
  {
  }

  lemma PlaneOff3(alive: (int, int, int) -> bool, x: int, y: int, z: int, k: int)
    requires k != z
    ensures Plane3(Without3(alive, x, y, z), x, y, k) == Plane3(alive, x, y, k)
  {
    RowOff3(alive, x, y, z, y - 1, k);
    RowOff3(alive, x, y, z, y, k);
    RowOff3(alive, x, y, z, y + 1, k);
  }

  lemma PlaneCentre3(alive: (int, int, int) -> bool, x: int, y: int, z: int)
    ensures Plane3(Without3(alive, x, y, z), x, y, z) + B(alive(x, y, z)) == Plane3(alive, x, y, z)
  {
    RowOff3(alive, x, y, z, y - 1, z);
    RowOff3(alive, x, y, z, y + 1, z);
  }

  /** A loop over the 3x3x3 box, layers then rows then columns, that skips
      the centre counts the Moore neighbours. */
  lemma CountingLoop3(alive: (int, int, int) -> bool, x: int, y: int, z: int)
    ensures PlanesSum3(Without3(alive, x, y, z), x, y, z - 1, z + 2) == Moore26(alive, x, y, z)
  {
    var w := Without3(alive, x, y, z);
    PlanesBox3(w, x, y, z);
    PlaneOff3(alive, x, y, z, z - 1);
    PlaneOff3(alive, x, y, z, z + 1);
    PlaneCentre3(alive, x, y, z);
    BoxMoore3(alive, x, y, z);
  }

  lemma RunRow3(alive: (int, int, int) -> bool, x: int, y: int, z: int)
    ensures RunSum3(alive, y, z, x - 1, x + 2) == Row3(alive, x, y, z)
  {
    assert RunSum3(alive, y, z, x - 1, x - 1) == 0;
    assert RunSum3(alive, y, z, x - 1, x) == RunSum3(alive, y, z, x - 1, x - 1) + B(alive(x - 1, y, z));
    assert RunSum3(alive, y, z, x - 1, x + 1) == RunSum3(alive, y, z, x - 1, x) + B(alive(x, y, z));
    assert RunSum3(alive, y, z, x - 1, x + 2) == RunSum3(alive, y, z, x - 1, x + 1) + B(alive(x + 1, y, z));
  }

  lemma RowsPlane3(alive: (int, int, int) -> bool, x: int, y: int, z: int)
    ensures RowsSum3(alive, x, z, y - 1, y + 2) == Plane3(alive, x, y, z)
  {
    assert RowsSum3(alive, x, z, y - 1, y - 1) == 0;
    assert RowsSum3(alive, x, z, y - 1, y) == RowsSum3(alive, x, z, y - 1, y - 1) + Row3(alive, x, y - 1, z);
    assert RowsSum3(alive, x, z, y - 1, y + 1) == RowsSum3(alive, x, z, y - 1, y) + Row3(alive, x, y, z);
    assert RowsSum3(alive, x, z, y - 1, y + 2) == RowsSum3(alive, x, z, y - 1, y + 1) + Row3(alive, x, y + 1, z);
  }

  lemma PlanesBox3(alive: (int, int, int) -> bool, x: int, y: int, z: int)
    ensures PlanesSum3(alive, x, y, z - 1, z + 2) == Box3(alive, x, y, z)
  {
    assert PlanesSum3(alive, x, y, z - 1, z - 1) == 0;
    assert PlanesSum3(alive, x, y, z - 1, z) == PlanesSum3(alive, x, y, z - 1, z - 1) + Plane3(alive, x, y, z - 1);
    assert PlanesSum3(alive, x, y, z - 1, z + 1) == PlanesSum3(alive, x, y, z - 1, z) + Plane3(alive, x, y, z);
    assert PlanesSum3(alive, x, y, z - 1, z + 2) == PlanesSum3(alive, x, y, z - 1, z + 1) + Plane3(alive, x, y, z + 1);
  }

  /** Sequence concatenation is associative. */
  lemma Assoc<T>(a: seq<T>, b: seq<T>, c: seq<T>)
    ensures a + (b + c) == (a + b) + c
  {
  }
}
