/** The first cave generator of the repository, the binary at its root: a
    grid is a flat `&mut [bool]` numbered row by row (and layer by layer in
    3D), and `smooth2`/`smooth3` rewrite it in place in one raster pass.
    Positions off the grid count as walls. */
module Prototype {
  import opened Lattice
  import Cellular

  // ----- 2D -----

  /** The grid a slice holds: cell `(x, y)` is entry `y * size.x + x`, and
      nothing lives off the grid. */
  function Cells2(sx: nat, sy: nat, data: seq<bool>): (int, int) -> bool
  {
    (x: int, y: int) => Live2(sx, sy, data, x, y)
  }

  /** Cell `(x, y)` is on the grid and its entry is set. */
  predicate Live2(sx: nat, sy: nat, data: seq<bool>, x: int, y: int)
  {
    InGrid2(sx, sy, x, y) && Index2(sx, x, y) < |data| && data[Index2(sx, x, y)]
  }

  /** A position of `smooth2`'s interior: neither its first nor its last
      column or row. */
  predicate Interior2(sx: nat, sy: nat, x: int, y: int)
  {
    0 < x && x + 1 < sx && 0 < y && y + 1 < sy
  }

  /** `count_neighbor_walls2`: eight tests, one per neighbour, each of which
      counts the neighbour when the position lies on the matching edge or
      when the neighbour's entry is set.  Away from the edges every read is
      in range and the result is the number of live neighbours; at the
      edges the unsigned index arithmetic of the source underflows, so its
      only caller, `smooth2`, passes interior positions. */
  method CountWalls2(sx: nat, sy: nat, data: seq<bool>, x: nat, y: nat) returns (count: nat)
    requires Interior2(sx, sy, x, y) && Mul(sy, sx) <= |data|
    ensures count == Moore8(Cells2(sx, sy, data), x, y)
  {
    LiveEntry2(sx, sy, data, x - 1, y - 1); LiveEntry2(sx, sy, data, x, y - 1); LiveEntry2(sx, sy, data, x + 1, y - 1);
    LiveEntry2(sx, sy, data, x - 1, y); LiveEntry2(sx, sy, data, x + 1, y);
    LiveEntry2(sx, sy, data, x - 1, y + 1); LiveEntry2(sx, sy, data, x, y + 1); LiveEntry2(sx, sy, data, x + 1, y + 1);
    // the neighbours to the west, east, north, south and on the diagonals
    ghost var w, e, n, s := B(Live2(sx, sy, data, x - 1, y)), B(Live2(sx, sy, data, x + 1, y)), B(Live2(sx, sy, data, x, y - 1)), B(Live2(sx, sy, data, x, y + 1));
    ghost var nw, ne, sw, se := B(Live2(sx, sy, data, x - 1, y - 1)), B(Live2(sx, sy, data, x + 1, y - 1)), B(Live2(sx, sy, data, x - 1, y + 1)), B(Live2(sx, sy, data, x + 1, y + 1));
    count := 0;
    if x == 0 || data[Index2(sx, x - 1, y)] {
      count := count + 1;
    }
    assert count == w;
    if x == sx - 1 || data[Index2(sx, x + 1, y)] {
      count := count + 1;
    }
    assert count == w + e;
    if y == 0 || data[Index2(sx, x, y - 1)] {
      count := count + 1;
    }
    assert count == w + e + n;
    if y == sy - 1 || data[Index2(sx, x, y + 1)] {
      count := count + 1;
    }
    assert count == w + e + n + s;
    if (x == 0 && y == 0) || data[Index2(sx, x - 1, y - 1)] {
      count := count + 1;
    }
    assert count == w + e + n + s + nw;
    if (x == sx - 1 && y == 0) || data[Index2(sx, x + 1, y - 1)] {
      count := count + 1;
    }
    assert count == w + e + n + s + nw + ne;
    if (x == 0 && y == sy - 1) || data[Index2(sx, x - 1, y + 1)] {
      count := count + 1;
    }
    assert count == w + e + n + s + nw + ne + sw;
    if (x == sx - 1 && y == sy - 1) || data[Index2(sx, x + 1, y + 1)] {
      count := count + 1;
    }
    Moore8Live2(sx, sy, data, x, y);
  }

  lemma Moore8Live2(sx: nat, sy: nat, data: seq<bool>, x: int, y: int)
    ensures Moore8(Cells2(sx, sy, data), x, y)
         == B(Live2(sx, sy, data, x - 1, y - 1)) + B(Live2(sx, sy, data, x, y - 1)) + B(Live2(sx, sy, data, x + 1, y - 1))
          + B(Live2(sx, sy, data, x - 1, y)) + B(Live2(sx, sy, data, x + 1, y))
          + B(Live2(sx, sy, data, x - 1, y + 1)) + B(Live2(sx, sy, data, x, y + 1)) + B(Live2(sx, sy, data, x + 1, y + 1))
  {
  }

  lemma LiveEntry2(sx: nat, sy: nat, data: seq<bool>, x: nat, y: nat)
    requires InGrid2(sx, sy, x, y) && Mul(sy, sx) <= |data|
    ensures Index2(sx, x, y) < |data| && Live2(sx, sy, data, x, y) == data[Index2(sx, x, y)]
  {
    Index2Bound(sx, sy, x, y);
  }

  /** What `smooth2` writes at `(x, y)` when the slice holds `s`: `true` on
      the border; inside, with `c` live neighbours, alive when `c > 4`, dead
      when `c < 4`, unchanged when `c == 4`. */
  function WallCell2(s: seq<bool>, sx: nat, sy: nat, x: nat, y: nat): bool
    requires InGrid2(sx, sy, x, y) && Mul(sy, sx) <= |s|
  {
    Index2Bound(sx, sy, x, y);
    if !Interior2(sx, sy, x, y) then true
    else
      var c := Moore8(Cells2(sx, sy, s), x, y);
      if c > 4 then true else if c < 4 then false else s[Index2(sx, x, y)]
  }

  /** Part way through `smooth2`, with the first `n` entries visited: each
      visited cell holds what `WallCell2` gave it on the slice as it was
      when the loops reached it (entries before it new, the others as in
      `before`), and entries from `n` on are as in `before`. */
  ghost predicate WallSmoothing2(s: seq<bool>, before: seq<bool>, sx: nat, sy: nat, n: nat)
  {
    && |s| == |before|
    && Mul(sy, sx) <= |s|
    && n <= |s|
    && s[n..] == before[n..]
    && forall x, y {:trigger WallReached2(s, before, sx, sy, x, y)} ::
         InGrid2(sx, sy, x, y) && Index2(sx, x, y) < n ==>
           s[Index2(sx, x, y)] == WallReached2(s, before, sx, sy, x, y)
  }

  /** What `WallCell2` gives `(x, y)` on the slice the loops see when they
      reach it, `s` holding the final entries. */
  function WallReached2(s: seq<bool>, before: seq<bool>, sx: nat, sy: nat, x: nat, y: nat): bool
    requires |s| == |before| && InGrid2(sx, sy, x, y) && Mul(sy, sx) <= |s|
  {
    Index2Bound(sx, sy, x, y);
    WallCell2(s[..Index2(sx, x, y)] + before[Index2(sx, x, y)..], sx, sy, x, y)
  }

  /** `s` is what one raster pass of `smooth2` makes of `before`. */
  ghost predicate WallSmoothed2(s: seq<bool>, before: seq<bool>, sx: nat, sy: nat)
  {
    WallSmoothing2(s, before, sx, sy, Mul(sy, sx))
  }

  /** Visiting the cell with entry `n` extends the pass by one entry. */
  lemma WallStep2(s: seq<bool>, before: seq<bool>, sx: nat, sy: nat, i: nat, j: nat)
    requires InGrid2(sx, sy, i, j)
    requires WallSmoothing2(s, before, sx, sy, Index2(sx, i, j))
    ensures Index2(sx, i, j) < Mul(sy, sx)
    ensures WallSmoothing2(s[Index2(sx, i, j) := WallCell2(s, sx, sy, i, j)], before, sx, sy, Index2(sx, i, j) + 1)
  {
    var n := Index2(sx, i, j);
    Index2Bound(sx, sy, i, j);
    var t := s[n := WallCell2(s, sx, sy, i, j)];
    assert s[..n] + before[n..] == s;
    forall x, y | InGrid2(sx, sy, x, y) && Index2(sx, x, y) < n + 1
      ensures t[Index2(sx, x, y)] == WallReached2(t, before, sx, sy, x, y)
    {
      var m := Index2(sx, x, y);
      assert t[..m] == s[..m];
      if m == n {
        Index2Injective(sx, x, y, i, j);
      } else {
        assert s[m] == WallReached2(s, before, sx, sy, x, y);
      }
    }
    assert t[n + 1..] == before[n + 1..] by {
      assert t[n + 1..] == s[n + 1..];
    }
  }

  /** Two results of the same pass agree: the pass is a function of the
      slice it starts from. */
  lemma WallSmoothedUnique2(a: seq<bool>, b: seq<bool>, before: seq<bool>, sx: nat, sy: nat)
    requires WallSmoothed2(a, before, sx, sy) && WallSmoothed2(b, before, sx, sy)
    ensures a == b
  {
    var j := 0;
    while j < sy
      invariant 0 <= j <= sy
      invariant Mul(j, sx) <= Mul(sy, sx)
      invariant a[..Mul(j, sx)] == b[..Mul(j, sx)]
    {
      MulMono(j + 1, sx, sy, sx);
      var i := 0;
      while i < sx
        invariant 0 <= i <= sx
        invariant a[..Mul(j, sx) + i] == b[..Mul(j, sx) + i]
      {
        WallAgreeNext2(a, b, before, sx, sy, i, j);
        i := i + 1;
      }
      j := j + 1;
    }
    assert a == a[..Mul(sy, sx)] + a[Mul(sy, sx)..];
    assert b == b[..Mul(sy, sx)] + b[Mul(sy, sx)..];
  }

  /** Two results of the pass that agree before `(i, j)` agree at it too. */
  lemma WallAgreeNext2(a: seq<bool>, b: seq<bool>, before: seq<bool>, sx: nat, sy: nat, i: nat, j: nat)
    requires WallSmoothed2(a, before, sx, sy) && WallSmoothed2(b, before, sx, sy)
    requires InGrid2(sx, sy, i, j) && Index2(sx, i, j) <= |a| && Index2(sx, i, j) <= |b|
    requires a[..Index2(sx, i, j)] == b[..Index2(sx, i, j)]
    ensures Index2(sx, i, j) < |a|
    ensures a[..Index2(sx, i, j) + 1] == b[..Index2(sx, i, j) + 1]
  {
    var n := Index2(sx, i, j);
    Index2Bound(sx, sy, i, j);
    ReachedPrefix2(a, b, before, sx, sy, i, j);
    assert a[n] == WallReached2(a, before, sx, sy, i, j);
    assert b[n] == WallReached2(b, before, sx, sy, i, j);
    assert a[..n + 1] == a[..n] + [a[n]];
    assert b[..n + 1] == b[..n] + [b[n]];
  }

  /** What a cell is given depends only on the entries before it. */
  lemma ReachedPrefix2(a: seq<bool>, b: seq<bool>, before: seq<bool>, sx: nat, sy: nat, i: nat, j: nat)
    requires |a| == |b| == |before| && InGrid2(sx, sy, i, j) && Mul(sy, sx) <= |a|
    requires Index2(sx, i, j) <= |a| && a[..Index2(sx, i, j)] == b[..Index2(sx, i, j)]
    ensures WallReached2(a, before, sx, sy, i, j) == WallReached2(b, before, sx, sy, i, j)
  {
    var n := Index2(sx, i, j);
    assert a[..n] + before[n..] == b[..n] + before[n..];
  }

  /** `smooth2`: visits the rows, then the columns, in order, setting the
      border to `true` and applying the "5-8/5-8/2/M" rule inside, reading
      the slice as it is at that moment. */
  method Smooth2(sx: nat, sy: nat, data: array<bool>)
    requires Mul(sy, sx) <= data.Length
    modifies data
    ensures WallSmoothed2(data[..], old(data[..]), sx, sy)
  {
    ghost var before := data[..];
    for j := 0 to sy
      invariant WallSmoothing2(data[..], before, sx, sy, Mul(j, sx))
    {
      for i := 0 to sx
        invariant WallSmoothing2(data[..], before, sx, sy, Mul(j, sx) + i)
      {
        SmoothCell2(sx, sy, data, i, j, before);
        assert Index2(sx, i, j) + 1 == Mul(j, sx) + (i + 1);
      }
      assert Mul(j, sx) + sx == Mul(j + 1, sx);
    }
  }

  /** One step of `smooth2`'s loops: the cell `(i, j)` gets what
      `WallCell2` gives it on the slice as it is. */
  method SmoothCell2(sx: nat, sy: nat, data: array<bool>, i: nat, j: nat, ghost before: seq<bool>)
    requires InGrid2(sx, sy, i, j) && WallSmoothing2(data[..], before, sx, sy, Index2(sx, i, j))
    modifies data
    ensures Index2(sx, i, j) < data.Length
    ensures data[..] == old(data[..])[Index2(sx, i, j) := WallCell2(old(data[..]), sx, sy, i, j)]
    ensures WallSmoothing2(data[..], before, sx, sy, Index2(sx, i, j) + 1)
  {
    WallStep2(data[..], before, sx, sy, i, j);
    var n := Mul(j, sx) + i;
    if i == 0 || j == 0 || i == sx - 1 || j == sy - 1 {
      data[n] := true;
    } else {
      var c := CountWalls2(sx, sy, data[..], i, j);
      if c > 4 {
        data[n] := true;
      } else if c < 4 {
        data[n] := false;
      } else {
        assert data[..][n := data[n]] == data[..];
      }
    }
  }

  /** After the pass every border cell is `true`. */
  lemma WallBorder2(s: seq<bool>, before: seq<bool>, sx: nat, sy: nat)
    requires WallSmoothed2(s, before, sx, sy)
    ensures forall x, y :: InGrid2(sx, sy, x, y) && !Interior2(sx, sy, x, y) ==> Cells2(sx, sy, s)(x, y)
  {
    forall x, y | InGrid2(sx, sy, x, y) && !Interior2(sx, sy, x, y)
      ensures Cells2(sx, sy, s)(x, y)
    {
      Index2Bound(sx, sy, x, y);
      assert s[Index2(sx, x, y)] == WallReached2(s, before, sx, sy, x, y);
    }
  }

  // ----- 3D -----

  /** The grid a slice holds: cell `(x, y, z)` is entry
      `z * size.y * size.x + y * size.x + x`, and nothing lives off the
      grid. */
  function Cells3(sx: nat, sy: nat, sz: nat, data: seq<bool>): (int, int, int) -> bool
  {
    (x: int, y: int, z: int) =>
      InGrid3(sx, sy, sz, x, y, z) && Cellular.Index3(sx, sy, x, y, z) < |data| && data[Cellular.Index3(sx, sy, x, y, z)]
  }

  /** What the innermost loop of `count_neighbor_walls3` adds for the
      position `(i, j, k)` around `(x, y, z)`: nothing for the centre, one
      for a column off the grid, otherwise one when the cell is alive. */
  function CellWalls3(g: (int, int, int) -> bool, sx: nat, x: int, y: int, z: int, i: int, j: int, k: int): nat
  {
    if i == x && j == y && k == z then 0 else if i < 0 || i >= sx then 1 else B(g(i, j, k))
  }

  /** What the middle loop adds for row `(j, k)`: one when the row is off
      the grid, otherwise the columns `x - 1` and `x`. */
  function RowWalls3(g: (int, int, int) -> bool, sx: nat, sy: nat, x: int, y: int, z: int, j: int, k: int): nat
  {
    if j < 0 || j >= sy then 1
    else CellWalls3(g, sx, x, y, z, x - 1, j, k) + CellWalls3(g, sx, x, y, z, x, j, k)
  }

  /** What the outer loop adds for layer `k`: one when the layer is off the
      grid, otherwise the rows `y - 1` and `y`. */
  function PlaneWalls3(g: (int, int, int) -> bool, sx: nat, sy: nat, sz: nat, x: int, y: int, z: int, k: int): nat
  {
    if k < 0 || k >= sz then 1
    else RowWalls3(g, sx, sy, x, y, z, y - 1, k) + RowWalls3(g, sx, sy, x, y, z, y, k)
  }

  /** The count `count_neighbor_walls3` returns: its loops run over the
      half-open ranges `p - 1 .. p + 1`, so they see the offsets -1 and 0 on
      each axis only, and a layer or row off the grid adds one however many
      cells it holds.  Seven positions at most are counted. */
  function Walls3(g: (int, int, int) -> bool, sx: nat, sy: nat, sz: nat, x: int, y: int, z: int): (c: nat)
    ensures c <= 7
  {
    PlaneWalls3(g, sx, sy, sz, x, y, z, z - 1) + PlaneWalls3(g, sx, sy, sz, x, y, z, z)
  }

  /** `count_neighbor_walls3`. */
  method CountWalls3(sx: nat, sy: nat, sz: nat, data: seq<bool>, x: nat, y: nat, z: nat) returns (count: nat)
    requires Cellular.Volume(sx, sy, sz) <= |data|
    ensures count == Walls3(Cells3(sx, sy, sz, data), sx, sy, sz, x, y, z)
  {
    ghost var g := Cells3(sx, sy, sz, data);
    count := 0;
    var k: int := z - 1;
    while k < z + 1
      invariant z - 1 <= k <= z + 1
      invariant count == (if k >= z then PlaneWalls3(g, sx, sy, sz, x, y, z, z - 1) else 0)
                         + (if k > z then PlaneWalls3(g, sx, sy, sz, x, y, z, z) else 0)
    {
      if k < 0 || k >= sz {
        count := count + 1;
      } else {
        count := CountPlane3(sx, sy, sz, data, x, y, z, k, count);
      }
      k := k + 1;
    }
  }

  /** The middle loop of `count_neighbor_walls3`, over the rows of the
      in-grid layer `k`. */
  method CountPlane3(sx: nat, sy: nat, sz: nat, data: seq<bool>, x: nat, y: nat, z: nat, k: int, count0: nat)
    returns (count: nat)
    requires Cellular.Volume(sx, sy, sz) <= |data| && 0 <= k < sz
    ensures count == count0 + PlaneWalls3(Cells3(sx, sy, sz, data), sx, sy, sz, x, y, z, k)
  {
    ghost var g := Cells3(sx, sy, sz, data);
    count := count0;
    var j: int := y - 1;
    while j < y + 1
      invariant y - 1 <= j <= y + 1
      invariant count == count0 + (if j >= y then RowWalls3(g, sx, sy, x, y, z, y - 1, k) else 0)
                                 + (if j > y then RowWalls3(g, sx, sy, x, y, z, y, k) else 0)
    {
      if j < 0 || j >= sy {
        count := count + 1;
      } else {
        var i: int := x - 1;
        while i < x + 1
          invariant x - 1 <= i <= x + 1
          invariant count == count0 + (if j > y - 1 then RowWalls3(g, sx, sy, x, y, z, y - 1, k) else 0)
                                     + (if i >= x then CellWalls3(g, sx, x, y, z, x - 1, j, k) else 0)
                                     + (if i > x then CellWalls3(g, sx, x, y, z, x, j, k) else 0)
        {
          if i == x && j == y && k == z {
            // the centre is skipped
          } else if i < 0 || i >= sx {
            count := count + 1;
          } else {
            Cellular.CellsBelow3(sx, sy, sz, i, j, k);
            if data[Cellular.Index3(sx, sy, i, j, k)] {
              count := count + 1;
            }
          }
          i := i + 1;
        }
      }
      j := j + 1;
    }
  }

  /** When the layer, row and column before the position are all on the
      grid, the count is the number of live cells among the seven positions
      with no coordinate above the position's: the 19 neighbours with an
      offset +1 are never looked at. */
  lemma WallsLowerOctant3(g: (int, int, int) -> bool, sx: nat, sy: nat, sz: nat, x: int, y: int, z: int)
    requires InGrid3(sx, sy, sz, x, y, z) && x >= 1 && y >= 1 && z >= 1
    ensures Walls3(g, sx, sy, sz, x, y, z)
         == B(g(x - 1, y - 1, z - 1)) + B(g(x, y - 1, z - 1)) + B(g(x - 1, y, z - 1)) + B(g(x, y, z - 1))
          + B(g(x - 1, y - 1, z)) + B(g(x, y - 1, z)) + B(g(x - 1, y, z))
  {
  }

  /** `smooth3`'s rule "13-26/13-14,17-19/2/M": an alive cell survives with
      at least 13 neighbours, a dead one is born with 13, 14 or 17 to 19. */
  function Rule3(alive: bool, c: nat): bool
  {
    if alive then c >= 13 else c == 13 || c == 14 || (17 <= c && c <= 19)
  }

  /** With at most seven neighbours counted, the rule kills every cell it is
      applied to, alive or not. */
  lemma RuleKills3(g: (int, int, int) -> bool, sx: nat, sy: nat, sz: nat, x: int, y: int, z: int, alive: bool)
    ensures !Rule3(alive, Walls3(g, sx, sy, sz, x, y, z))
  {
  }

  /** Part way through `smooth3`, at `(i, j, k)`, what entry
      `Index3(x, y, z)` holds: a cell of an interior column `(x, y)` that
      the loops have passed is dead; a border column is written at its
      layer-0 entry `y * size.x + x`, which is alive once the loops have
      passed `(x, y, 0)`; everything else is as in `before`. */
  function Expected3(before: seq<bool>, sx: nat, sy: nat, sz: nat, x: int, y: int, z: int, i: int, j: int, k: int): bool
    requires InGrid3(sx, sy, sz, x, y, z) && Cellular.Volume(sx, sy, sz) <= |before|
  {
    Cellular.CellsBelow3(sx, sy, sz, x, y, z);
    if Interior2(sx, sy, x, y) then
      if Cellular.Before3(x, y, z, i, j, k) then false else before[Cellular.Index3(sx, sy, x, y, z)]
    else if z == 0 && Cellular.Before3(x, y, 0, i, j, k) then true
    else before[Cellular.Index3(sx, sy, x, y, z)]
  }

  /** The slice part way through `smooth3`, at `(i, j, k)`; entries past
      the grid are never touched. */
  ghost predicate Smoothing3(s: seq<bool>, before: seq<bool>, sx: nat, sy: nat, sz: nat, i: int, j: int, k: int)
  {
    && |s| == |before|
    && Cellular.Volume(sx, sy, sz) <= |s|
    && (forall n :: Cellular.Volume(sx, sy, sz) <= n < |s| ==> s[n] == before[n])
    && forall x, y, z {:trigger Entry3(s, sx, sy, sz, x, y, z)} :: InGrid3(sx, sy, sz, x, y, z) ==>
         Entry3(s, sx, sy, sz, x, y, z) == Expected3(before, sx, sy, sz, x, y, z, i, j, k)
  }

  /** The entry of the in-grid cell `(x, y, z)`. */
  function Entry3(s: seq<bool>, sx: nat, sy: nat, sz: nat, x: int, y: int, z: int): bool
    requires InGrid3(sx, sy, sz, x, y, z) && Cellular.Volume(sx, sy, sz) <= |s|
  {
    Cellular.CellsBelow3(sx, sy, sz, x, y, z);
    s[Cellular.Index3(sx, sy, x, y, z)]
  }

  /** Killing the cell of an interior column moves the loops one step. */
  lemma StepInterior3(s: seq<bool>, before: seq<bool>, sx: nat, sy: nat, sz: nat, i: int, j: int, k: int)
    requires Smoothing3(s, before, sx, sy, sz, i, j, k)
    requires InGrid3(sx, sy, sz, i, j, k) && Interior2(sx, sy, i, j)
    ensures Cellular.Index3(sx, sy, i, j, k) < |s|
    ensures Smoothing3(s[Cellular.Index3(sx, sy, i, j, k) := false], before, sx, sy, sz, i + 1, j, k)
  {
    Cellular.CellsBelow3(sx, sy, sz, i, j, k);
    var t := s[Cellular.Index3(sx, sy, i, j, k) := false];
    forall x, y, z | InGrid3(sx, sy, sz, x, y, z)
      ensures Entry3(t, sx, sy, sz, x, y, z) == Expected3(before, sx, sy, sz, x, y, z, i + 1, j, k)
    {
      if Cellular.Index3(sx, sy, x, y, z) == Cellular.Index3(sx, sy, i, j, k) {
        Cellular.Index3Injective(sx, sy, sz, x, y, z, i, j, k);
      } else {
        Cellular.CellsBelow3(sx, sy, sz, x, y, z);
        assert Entry3(t, sx, sy, sz, x, y, z) == Entry3(s, sx, sy, sz, x, y, z);
        assert Entry3(s, sx, sy, sz, x, y, z) == Expected3(before, sx, sy, sz, x, y, z, i, j, k);
        assert Cellular.Before3(x, y, z, i + 1, j, k) == Cellular.Before3(x, y, z, i, j, k);
      }
    }
  }

  /** Setting the layer-0 entry of a border column moves the loops one
      step, whatever layer they are in. */
  lemma StepBorder3(s: seq<bool>, before: seq<bool>, sx: nat, sy: nat, sz: nat, i: int, j: int, k: int)
    requires Smoothing3(s, before, sx, sy, sz, i, j, k)
    requires InGrid3(sx, sy, sz, i, j, k) && !Interior2(sx, sy, i, j)
    ensures Index2(sx, i, j) == Cellular.Index3(sx, sy, i, j, 0) < |s|
    ensures Smoothing3(s[Index2(sx, i, j) := true], before, sx, sy, sz, i + 1, j, k)
  {
    Cellular.CellsBelow3(sx, sy, sz, i, j, 0);
    var t := s[Index2(sx, i, j) := true];
    forall x, y, z | InGrid3(sx, sy, sz, x, y, z)
      ensures Entry3(t, sx, sy, sz, x, y, z) == Expected3(before, sx, sy, sz, x, y, z, i + 1, j, k)
    {
      if Cellular.Index3(sx, sy, x, y, z) == Cellular.Index3(sx, sy, i, j, 0) {
        Cellular.Index3Injective(sx, sy, sz, x, y, z, i, j, 0);
      } else {
        Cellular.CellsBelow3(sx, sy, sz, x, y, z);
        assert Entry3(t, sx, sy, sz, x, y, z) == Entry3(s, sx, sy, sz, x, y, z);
        assert Entry3(s, sx, sy, sz, x, y, z) == Expected3(before, sx, sy, sz, x, y, z, i, j, k);
      }
    }
  }

  /** `smooth3`: visits the layers, rows and columns in order.  A column on
      the border of the layer (its `i` or `j` first or last, whatever `k`)
      has `true` written at entry `j * size.x + i`, which is the cell of
      layer 0; every other cell is given the rule on a count of at most
      seven, which kills it.  So afterwards the interior columns are dead
      in every layer, the border of layer 0 is alive, and the border cells
      of the other layers keep their state. */
  method Smooth3(sx: nat, sy: nat, sz: nat, data: array<bool>)
    requires Cellular.Volume(sx, sy, sz) <= data.Length
    modifies data
    ensures Smoothing3(data[..], old(data[..]), sx, sy, sz, 0, 0, sz)
  {
    ghost var before := data[..];
    for k := 0 to sz
      invariant Smoothing3(data[..], before, sx, sy, sz, 0, 0, k)
    {
      for j := 0 to sy
        invariant Smoothing3(data[..], before, sx, sy, sz, 0, j, k)
      {
        for i := 0 to sx
          invariant Smoothing3(data[..], before, sx, sy, sz, i, j, k)
        {
          SmoothCell3(sx, sy, sz, data, i, j, k, before);
        }
        NextRow3(data[..], before, sx, sy, sz, j, k);
      }
      NextLayer3(data[..], before, sx, sy, sz, k);
    }
  }

  /** One step of `smooth3`'s loops, at `(i, j, k)`. */
  method SmoothCell3(sx: nat, sy: nat, sz: nat, data: array<bool>, i: nat, j: nat, k: nat, ghost before: seq<bool>)
    requires InGrid3(sx, sy, sz, i, j, k) && Smoothing3(data[..], before, sx, sy, sz, i, j, k)
    modifies data
    ensures Smoothing3(data[..], before, sx, sy, sz, i + 1, j, k)
  {
    if i == 0 || j == 0 || i == sx - 1 || j == sy - 1 {
      StepBorder3(data[..], before, sx, sy, sz, i, j, k);
      data[Mul(j, sx) + i] := true;
    } else {
      StepInterior3(data[..], before, sx, sy, sz, i, j, k);
      var c := CountWalls3(sx, sy, sz, data[..], i, j, k);
      var n := Cellular.Index3(sx, sy, i, j, k);
      if data[n] {
        data[n] := c >= 13;
      } else {
        data[n] := c == 13 || c == 14 || (c >= 17 && c <= 19);
      }
    }
  }

  lemma NextRow3(s: seq<bool>, before: seq<bool>, sx: nat, sy: nat, sz: nat, j: int, k: int)
    requires Smoothing3(s, before, sx, sy, sz, sx, j, k)
    ensures Smoothing3(s, before, sx, sy, sz, 0, j + 1, k)
  {
    forall x, y, z | InGrid3(sx, sy, sz, x, y, z)
      ensures Entry3(s, sx, sy, sz, x, y, z) == Expected3(before, sx, sy, sz, x, y, z, 0, j + 1, k)
    {
      assert Expected3(before, sx, sy, sz, x, y, z, 0, j + 1, k) == Expected3(before, sx, sy, sz, x, y, z, sx, j, k);
    }
  }

  lemma NextLayer3(s: seq<bool>, before: seq<bool>, sx: nat, sy: nat, sz: nat, k: int)
    requires Smoothing3(s, before, sx, sy, sz, 0, sy, k)
    ensures Smoothing3(s, before, sx, sy, sz, 0, 0, k + 1)
  {
    forall x, y, z | InGrid3(sx, sy, sz, x, y, z)
      ensures Entry3(s, sx, sy, sz, x, y, z) == Expected3(before, sx, sy, sz, x, y, z, 0, 0, k + 1)
    {
      assert Expected3(before, sx, sy, sz, x, y, z, 0, 0, k + 1) == Expected3(before, sx, sy, sz, x, y, z, 0, sy, k);
    }
  }

  /** What one pass of `smooth3` leaves: interior columns dead in every
      layer, the border of layer 0 alive, the border of every other layer
      untouched (so a grid with more than one layer keeps whatever its
      upper borders held). */
  lemma Smoothed3(s: seq<bool>, before: seq<bool>, sx: nat, sy: nat, sz: nat)
    requires Smoothing3(s, before, sx, sy, sz, 0, 0, sz)
    ensures forall x, y, z :: InGrid3(sx, sy, sz, x, y, z) && Interior2(sx, sy, x, y) ==> !Cells3(sx, sy, sz, s)(x, y, z)
    ensures forall x, y :: InGrid3(sx, sy, sz, x, y, 0) && !Interior2(sx, sy, x, y) ==> Cells3(sx, sy, sz, s)(x, y, 0)
    ensures forall x, y, z :: InGrid3(sx, sy, sz, x, y, z) && !Interior2(sx, sy, x, y) && z > 0 ==>
              Cells3(sx, sy, sz, s)(x, y, z) == Cells3(sx, sy, sz, before)(x, y, z)
  {
    forall x, y, z | InGrid3(sx, sy, sz, x, y, z)
      ensures Cellular.Index3(sx, sy, x, y, z) < |s|
      ensures Entry3(s, sx, sy, sz, x, y, z) == Expected3(before, sx, sy, sz, x, y, z, 0, 0, sz)
    {
      Cellular.CellsBelow3(sx, sy, sz, x, y, z);
    }
  }

  // ----- The counts `count_neighbor_walls3` misses -----

  /** On a grid full of walls, a position whose lower neighbours are all on
      the grid gets a count of 7 from `count_neighbor_walls3`, where the 26
      neighbours it was evidently meant to count (off-grid ones as walls)
      number 26. */
  lemma FullGridWalls3(sx: nat, sy: nat, sz: nat, data: seq<bool>, x: int, y: int, z: int)
    requires Cellular.Volume(sx, sy, sz) <= |data| && forall n :: 0 <= n < |data| ==> data[n]
    requires InGrid3(sx, sy, sz, x, y, z) && x >= 1 && y >= 1 && z >= 1
    ensures Walls3(Cells3(sx, sy, sz, data), sx, sy, sz, x, y, z) == 7
    ensures Moore26(WithBorder3(Cells3(sx, sy, sz, data), sx, sy, sz, true), x, y, z) == 26
  {
    var g := Cells3(sx, sy, sz, data);
    forall i, j, k | InGrid3(sx, sy, sz, i, j, k)
      ensures g(i, j, k)
    {
      Cellular.CellsBelow3(sx, sy, sz, i, j, k);
    }
    WallsLowerOctant3(g, sx, sy, sz, x, y, z);
    AllWalls3(g, sx, sy, sz, x, y, z);
  }

  /** A grid alive everywhere on it, with walls off it, counts all 26
      neighbours. */
  lemma AllWalls3(g: (int, int, int) -> bool, sx: nat, sy: nat, sz: nat, x: int, y: int, z: int)
    requires forall i, j, k :: InGrid3(sx, sy, sz, i, j, k) ==> g(i, j, k)
    ensures Moore26(WithBorder3(g, sx, sy, sz, true), x, y, z) == 26
  {
    var w := WithBorder3(g, sx, sy, sz, true);
    forall i, j, k
      ensures w(i, j, k)
    {
    }
  }

  /** `count_neighbor_walls3` as evidently intended: inclusive ranges
      `p - 1 ..= p + 1`, the centre skipped, and every off-grid position
      counted as a wall, which is the Moore count of the grid with walls
      around it. */
  method CountWallsAll3(sx: nat, sy: nat, sz: nat, data: seq<bool>, x: int, y: int, z: int) returns (count: nat)
    requires Cellular.Volume(sx, sy, sz) <= |data|
    ensures count == Moore26(WithBorder3(Cells3(sx, sy, sz, data), sx, sy, sz, true), x, y, z)
  {
    ghost var alive := Without3(WithBorder3(Cells3(sx, sy, sz, data), sx, sy, sz, true), x, y, z);
    count := 0;
    var k := z - 1;
    while k <= z + 1
      invariant z - 1 <= k <= z + 2
      invariant count == PlanesSum3(alive, x, y, z - 1, k)
    {
      var j := y - 1;
      while j <= y + 1
        invariant y - 1 <= j <= y + 2
        invariant count == PlanesSum3(alive, x, y, z - 1, k) + RowsSum3(alive, x, k, y - 1, j)
      {
        count := CountWallsRow3(sx, sy, sz, data, x, y, z, j, k, count);
        j := j + 1;
      }
      RowsPlane3(alive, x, y, k);
      k := k + 1;
    }
    CountingLoop3(WithBorder3(Cells3(sx, sy, sz, data), sx, sy, sz, true), x, y, z);
  }

  /** The innermost loop of the intended count, over the row `(j, k)`. */
  method CountWallsRow3(sx: nat, sy: nat, sz: nat, data: seq<bool>, x: int, y: int, z: int, j: int, k: int, count0: nat)
    returns (count: nat)
    requires Cellular.Volume(sx, sy, sz) <= |data|
    ensures count == count0 + Row3(Without3(WithBorder3(Cells3(sx, sy, sz, data), sx, sy, sz, true), x, y, z), x, j, k)
  {
    ghost var alive := Without3(WithBorder3(Cells3(sx, sy, sz, data), sx, sy, sz, true), x, y, z);
    count := count0;
    var i := x - 1;
    while i <= x + 1
      invariant x - 1 <= i <= x + 2
      invariant count == count0 + RunSum3(alive, j, k, x - 1, i)
    {
      if i == x && j == y && k == z {
        // the centre is skipped
      } else if !InGrid3(sx, sy, sz, i, j, k) {
        count := count + 1;
      } else {
        Cellular.CellsBelow3(sx, sy, sz, i, j, k);
        if data[Cellular.Index3(sx, sy, i, j, k)] {
          count := count + 1;
        }
      }
      i := i + 1;
    }
    RunRow3(alive, x, j, k);
  }

  // ----- `smooth3` writing the border of every layer -----

  /** Part way through the intended `smooth3`, at `(i, j, k)`: a cell the
      loops have passed is alive on the border of its layer and dead
      inside, every other cell is as in `before`. */
  function ExpectedLayered3(before: seq<bool>, sx: nat, sy: nat, sz: nat, x: int, y: int, z: int, i: int, j: int, k: int): bool
    requires InGrid3(sx, sy, sz, x, y, z) && Cellular.Volume(sx, sy, sz) <= |before|
  {
    if Cellular.Before3(x, y, z, i, j, k) then !Interior2(sx, sy, x, y) else Entry3(before, sx, sy, sz, x, y, z)
  }

  ghost predicate SmoothingLayered3(s: seq<bool>, before: seq<bool>, sx: nat, sy: nat, sz: nat, i: int, j: int, k: int)
  {
    && |s| == |before|
    && Cellular.Volume(sx, sy, sz) <= |s|
    && (forall n :: Cellular.Volume(sx, sy, sz) <= n < |s| ==> s[n] == before[n])
    && forall x, y, z {:trigger Entry3(s, sx, sy, sz, x, y, z)} :: InGrid3(sx, sy, sz, x, y, z) ==>
         Entry3(s, sx, sy, sz, x, y, z) == ExpectedLayered3(before, sx, sy, sz, x, y, z, i, j, k)
  }

  /** Giving `(i, j, k)` its value moves the loops one step. */
  lemma StepLayered3(s: seq<bool>, before: seq<bool>, sx: nat, sy: nat, sz: nat, i: int, j: int, k: int)
    requires SmoothingLayered3(s, before, sx, sy, sz, i, j, k) && InGrid3(sx, sy, sz, i, j, k)
    ensures Cellular.Index3(sx, sy, i, j, k) < |s|
    ensures SmoothingLayered3(s[Cellular.Index3(sx, sy, i, j, k) := !Interior2(sx, sy, i, j)], before, sx, sy, sz, i + 1, j, k)
  {
    Cellular.CellsBelow3(sx, sy, sz, i, j, k);
    var t := s[Cellular.Index3(sx, sy, i, j, k) := !Interior2(sx, sy, i, j)];
    forall x, y, z | InGrid3(sx, sy, sz, x, y, z)
      ensures Entry3(t, sx, sy, sz, x, y, z) == ExpectedLayered3(before, sx, sy, sz, x, y, z, i + 1, j, k)
    {
      if Cellular.Index3(sx, sy, x, y, z) == Cellular.Index3(sx, sy, i, j, k) {
        Cellular.Index3Injective(sx, sy, sz, x, y, z, i, j, k);
      } else {
        Cellular.CellsBelow3(sx, sy, sz, x, y, z);
        assert Entry3(t, sx, sy, sz, x, y, z) == Entry3(s, sx, sy, sz, x, y, z);
        assert Entry3(s, sx, sy, sz, x, y, z) == ExpectedLayered3(before, sx, sy, sz, x, y, z, i, j, k);
        assert Cellular.Before3(x, y, z, i + 1, j, k) == Cellular.Before3(x, y, z, i, j, k);
      }
    }
  }

  /** `smooth3` with the border written at `k * size.y * size.x + j *
      size.x + i`, the entry of the cell the loops are at.  Only the border
      index is corrected: the interior still goes through the as-written
      `CountWalls3`, whose count of at most seven kills every interior
      cell.  So the border of every layer ends alive and the interior dead. */
  method Smooth3Layered(sx: nat, sy: nat, sz: nat, data: array<bool>)
    requires Cellular.Volume(sx, sy, sz) <= data.Length
    modifies data
    ensures SmoothingLayered3(data[..], old(data[..]), sx, sy, sz, 0, 0, sz)
  {
    ghost var before := data[..];
    for k := 0 to sz
      invariant SmoothingLayered3(data[..], before, sx, sy, sz, 0, 0, k)
    {
      for j := 0 to sy
        invariant SmoothingLayered3(data[..], before, sx, sy, sz, 0, j, k)
      {
        for i := 0 to sx
          invariant SmoothingLayered3(data[..], before, sx, sy, sz, i, j, k)
        {
          SmoothCellLayered3(sx, sy, sz, data, i, j, k, before);
        }
        NextRowLayered3(data[..], before, sx, sy, sz, j, k);
      }
      NextLayerLayered3(data[..], before, sx, sy, sz, k);
    }
  }

  /** One step of the intended `smooth3`'s loops, at `(i, j, k)`. */
  method SmoothCellLayered3(sx: nat, sy: nat, sz: nat, data: array<bool>, i: nat, j: nat, k: nat, ghost before: seq<bool>)
    requires InGrid3(sx, sy, sz, i, j, k) && SmoothingLayered3(data[..], before, sx, sy, sz, i, j, k)
    modifies data
    ensures SmoothingLayered3(data[..], before, sx, sy, sz, i + 1, j, k)
  {
    StepLayered3(data[..], before, sx, sy, sz, i, j, k);
    var n := Cellular.Index3(sx, sy, i, j, k);
    if i == 0 || j == 0 || i == sx - 1 || j == sy - 1 {
      data[n] := true;
    } else {
      var c := CountWalls3(sx, sy, sz, data[..], i, j, k);
      if data[n] {
        data[n] := c >= 13;
      } else {
        data[n] := c == 13 || c == 14 || (c >= 17 && c <= 19);
      }
    }
  }

  lemma NextRowLayered3(s: seq<bool>, before: seq<bool>, sx: nat, sy: nat, sz: nat, j: int, k: int)
    requires SmoothingLayered3(s, before, sx, sy, sz, sx, j, k)
    ensures SmoothingLayered3(s, before, sx, sy, sz, 0, j + 1, k)
  {
    forall x, y, z | InGrid3(sx, sy, sz, x, y, z)
      ensures Entry3(s, sx, sy, sz, x, y, z) == ExpectedLayered3(before, sx, sy, sz, x, y, z, 0, j + 1, k)
    {
      assert ExpectedLayered3(before, sx, sy, sz, x, y, z, 0, j + 1, k) == ExpectedLayered3(before, sx, sy, sz, x, y, z, sx, j, k);
    }
  }

  lemma NextLayerLayered3(s: seq<bool>, before: seq<bool>, sx: nat, sy: nat, sz: nat, k: int)
    requires SmoothingLayered3(s, before, sx, sy, sz, 0, sy, k)
    ensures SmoothingLayered3(s, before, sx, sy, sz, 0, 0, k + 1)
  {
    forall x, y, z | InGrid3(sx, sy, sz, x, y, z)
      ensures Entry3(s, sx, sy, sz, x, y, z) == ExpectedLayered3(before, sx, sy, sz, x, y, z, 0, 0, k + 1)
    {
      assert ExpectedLayered3(before, sx, sy, sz, x, y, z, 0, 0, k + 1) == ExpectedLayered3(before, sx, sy, sz, x, y, z, 0, sy, k);
    }
  }

  /** After the pass with the border index corrected every cell is alive
      exactly when it lies on the border of its layer: the border half by
      the correction, the interior half by the seven-cell count of the
      as-written `CountWalls3`. */
  lemma SmoothedLayered3(s: seq<bool>, before: seq<bool>, sx: nat, sy: nat, sz: nat)
    requires SmoothingLayered3(s, before, sx, sy, sz, 0, 0, sz)
    ensures forall x, y, z :: InGrid3(sx, sy, sz, x, y, z) ==> (Cells3(sx, sy, sz, s)(x, y, z) <==> !Interior2(sx, sy, x, y))
  {
    forall x, y, z | InGrid3(sx, sy, sz, x, y, z)
      ensures Cells3(sx, sy, sz, s)(x, y, z) == Entry3(s, sx, sy, sz, x, y, z) == ExpectedLayered3(before, sx, sy, sz, x, y, z, 0, 0, sz)
    {
      Cellular.CellsBelow3(sx, sy, sz, x, y, z);
    }
  }

  /** The border cell `(0, 0, 1)` of a two-layer grid shows the difference:
      `smooth3` leaves it dead when it starts dead, the intended pass makes
      it alive. */
  lemma UpperBorderKept3(s: seq<bool>, t: seq<bool>, before: seq<bool>, sx: nat, sy: nat)
    requires sx >= 1 && sy >= 1
    requires Smoothing3(s, before, sx, sy, 2, 0, 0, 2) && SmoothingLayered3(t, before, sx, sy, 2, 0, 0, 2)
    requires !Cells3(sx, sy, 2, before)(0, 0, 1)
    ensures !Cells3(sx, sy, 2, s)(0, 0, 1) && Cells3(sx, sy, 2, t)(0, 0, 1)
  {
    Smoothed3(s, before, sx, sy, 2);
    SmoothedLayered3(t, before, sx, sy, 2);
  }
}
