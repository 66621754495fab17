/** The bit-packed 3D grid of the engine.  Cells are grouped in 4x4x4
    blocks, one `u64` each, blocks numbered X fastest, then Y, then Z; the
    cell `(x, y, z)` is bit `(x & 3) | (y & 3) << 2 | (z & 3) << 4` of its
    block.  `get_bitblock_count` and the neighbour counter divide the sizes
    by 4 rounding up, `resolve` rounding down: the two layouts agree when
    every size is a multiple of 4, and the model follows each of them as
    written at every size. */
module CytogonGrid3 {
  import opened Words
  import opened Lattice
  import opened CytogonRules
  import opened BlockDecompress
  import opened SeparableCount

  // ------------------------------------------------------ resolve

  /** `get_bitblock_count`: one block per 4x4x4 cells, each size rounded up. */
  function BitblockCount3(sx: nat, sy: nat, sz: nat): nat
  {
    Mul(Mul(DivCeil(sx, 4), DivCeil(sy, 4)), DivCeil(sz, 4))
  }

  predicate Multiple4(sx: nat, sy: nat, sz: nat)
  {
    sx % 4 == 0 && sy % 4 == 0 && sz % 4 == 0
  }

  /** The block number `resolve` computes for an in-grid cell, with the
      sizes divided by 4 rounded down. */
  function BlockOf(sx: nat, sy: nat, x: nat, y: nat, z: nat): nat
  {
    Mul(Mul(z / 4, sy / 4), sx / 4) + Mul(y / 4, sx / 4) + x / 4
  }

  /** The bit `(x & 3) | (y & 3) << 2 | (z & 3) << 4`: the three fields do
      not overlap, so the OR is their sum. */
  function BitOf(x: nat, y: nat, z: nat): nat
  {
    x % 4 + 4 * (y % 4) + 16 * (z % 4)
  }

  /** The cell's bit among all the bits of the grid, `index * 64 + bit`;
      it is also the slot of the counts that `apply_rule_ref` reads. */
  function CellBit(sx: nat, sy: nat, x: nat, y: nat, z: nat): nat
  {
    64 * BlockOf(sx, sy, x, y, z) + BitOf(x, y, z)
  }

  /** `resolve`: the block number and the bit of an in-grid cell, `None`
      off the grid. */
  function Resolve(sx: nat, sy: nat, sz: nat, x: int, y: int, z: int): (r: Option<(nat, nat)>)
    ensures r.Some? <==> InGrid3(sx, sy, sz, x, y, z)
    ensures r.Some? ==> r.value.1 < 64
  {
    if x < 0 || y < 0 || z < 0 || x >= sx || y >= sy || z >= sz then None
    else Some((BlockOf(sx, sy, x, y, z), BitOf(x, y, z)))
  }

  /** Word `i` and byte `k` of the cell within its block, in the layout of
      the neighbour counter. */
  function WordOf(y: nat, z: nat): nat { 2 * (z % 4) + (y % 4) / 2 }
  function LaneOf(x: nat, y: nat): nat { x % 4 + 4 * (y % 2) }

  /** `y & 3` splits into its bit 1 and its bit 0. */
  lemma LowBits(y: nat)
    ensures y % 4 == 2 * ((y % 4) / 2) + y % 2
  {
    var q, b := y / 4, y % 4;
    assert y == 2 * (2 * q) + b;
    if b < 2 {
      assert y == 2 * (2 * q) + b;
    } else {
      assert y == 2 * (2 * q + 1) + (b - 2);
    }
  }

  lemma LaneParts(x: nat, y: nat)
    ensures LaneOf(x, y) < 8 && LaneOf(x, y) % 4 == x % 4 && LaneOf(x, y) / 4 == y % 2
  {
  }

  lemma WordParts(y: nat, z: nat)
    ensures WordOf(y, z) < 8 && WordOf(y, z) % 2 == (y % 4) / 2 && WordOf(y, z) / 2 == z % 4
  {
  }

  /** The three fields of the bit: it is byte `LaneOf` of word `WordOf`,
      and that byte of block `(x / 4, y / 4, z / 4)` stands for the cell
      itself. */
  lemma BitFields(x: nat, y: nat, z: nat)
    ensures WordOf(y, z) < 8 && LaneOf(x, y) < 8
    ensures BitOf(x, y, z) == 8 * WordOf(y, z) + LaneOf(x, y)
    ensures CellX(x / 4, LaneOf(x, y)) == x
    ensures CellY(y / 4, WordOf(y, z), LaneOf(x, y)) == y
    ensures CellZ(z / 4, WordOf(y, z)) == z
  {
    LowBits(y);
    LaneParts(x, y);
    WordParts(y, z);
  }

  /** The block of `resolve` is the block the neighbour counter numbers
      `(x / 4, y / 4, z / 4)` in a lattice `sx / 4` blocks wide. */
  lemma BlockOfIndex(sx: nat, sy: nat, x: nat, y: nat, z: nat)
    ensures BlockOf(sx, sy, x, y, z) == BlockIndex(sx / 4, sy / 4, x / 4, y / 4, z / 4)
  {
    MulAdd(Mul(z / 4, sy / 4), y / 4, sx / 4);
  }

  /** The bit of an in-grid cell is the counter slot of that cell in a
      lattice of blocks `sx / 4` wide and `sy / 4` deep. */
  lemma ResolveSlot(sx: nat, sy: nat, sz: nat, x: nat, y: nat, z: nat)
    requires InGrid3(sx, sy, sz, x, y, z)
    ensures InBlocks(DivCeil(sx, 4), DivCeil(sy, 4), DivCeil(sz, 4), x / 4, y / 4, z / 4)
    ensures WordOf(y, z) < 8 && LaneOf(x, y) < 8
    ensures CellBit(sx, sy, x, y, z) == Slot(sx / 4, sy / 4, x / 4, y / 4, z / 4, WordOf(y, z), LaneOf(x, y))
    ensures CellX(x / 4, LaneOf(x, y)) == x
    ensures CellY(y / 4, WordOf(y, z), LaneOf(x, y)) == y
    ensures CellZ(z / 4, WordOf(y, z)) == z
  {
    BitFields(x, y, z);
    BlockOfIndex(sx, sy, x, y, z);
  }

  /** `div_ceil(4)` is the `(size + 3) / 4` of the neighbour counter, so
      `get_bitblock_count` is the number of blocks the counter walks, at
      every size. */
  lemma CountIsLattice(sx: nat, sy: nat, sz: nat)
    ensures DivCeil(sx, 4) == (sx + 3) / 4
    ensures DivCeil(sy, 4) == (sy + 3) / 4
    ensures DivCeil(sz, 4) == (sz + 3) / 4
    ensures BitblockCount3(sx, sy, sz) == BlockCount((sx + 3) / 4, (sy + 3) / 4, (sz + 3) / 4)
  {
    var cx, cy, cz := (sx + 3) / 4, (sy + 3) / 4, (sz + 3) / 4;
    MulAssoc(cx, cy, cz);
    MulComm(cx, Mul(cy, cz));
    MulComm(cy, cz);
  }

  /** With sizes multiple of 4 the rounding does not matter. */
  lemma CountIsBlocks(sx: nat, sy: nat, sz: nat)
    requires Multiple4(sx, sy, sz)
    ensures DivCeil(sx, 4) == sx / 4 == (sx + 3) / 4
    ensures DivCeil(sy, 4) == sy / 4 == (sy + 3) / 4
    ensures DivCeil(sz, 4) == sz / 4 == (sz + 3) / 4
    ensures BitblockCount3(sx, sy, sz) == BlockCount(sx / 4, sy / 4, sz / 4)
  {
    CountIsLattice(sx, sy, sz);
  }

  /** The block of every in-grid cell is below `get_bitblock_count`, at
      every size: the strides of `resolve`, rounded down, are at most those
      of the blocks, rounded up.  So `cell` and `set_cell` never index past
      the blocks. */
  lemma ResolveInRange(sx: nat, sy: nat, sz: nat, x: int, y: int, z: int)
    requires InGrid3(sx, sy, sz, x, y, z)
    ensures BlockOf(sx, sy, x, y, z) < BitblockCount3(sx, sy, sz)
    ensures CellBit(sx, sy, x, y, z) / 64 == BlockOf(sx, sy, x, y, z)
    ensures CellBit(sx, sy, x, y, z) % 64 == BitOf(x, y, z)
  {
    var cx, cy, cz := (sx + 3) / 4, (sy + 3) / 4, (sz + 3) / 4;
    BlockOfIndex(sx, sy, x, y, z);
    MulMono(z / 4, sy / 4, z / 4, cy);
    MulMono(Mul(z / 4, sy / 4) + y / 4, sx / 4, Mul(z / 4, cy) + y / 4, cx);
    BlockIndexBound(cx, cy, cz, x / 4, y / 4, z / 4);
    CountIsLattice(sx, sy, sz);
  }

  lemma DigitsUnique(w: nat, l: nat, w2: nat, l2: nat)
    requires l < 8 && l2 < 8 && 8 * w + l == 8 * w2 + l2
    ensures w == w2 && l == l2
  {
  }

  lemma QuarterBelow(x: nat, s: nat)
    requires x < s && s % 4 == 0
    ensures x / 4 < s / 4
  {
  }

  /** Two in-grid cells with the same block lie in the same 4x4x4 block. */
  lemma SameBlock(sx: nat, sy: nat, sz: nat, x: nat, y: nat, z: nat, x2: nat, y2: nat, z2: nat)
    requires Multiple4(sx, sy, sz) && InGrid3(sx, sy, sz, x, y, z) && InGrid3(sx, sy, sz, x2, y2, z2)
    requires BlockOf(sx, sy, x, y, z) == BlockOf(sx, sy, x2, y2, z2)
    ensures x / 4 == x2 / 4 && y / 4 == y2 / 4 && z / 4 == z2 / 4
  {
    QuarterBelow(x, sx);
    QuarterBelow(y, sy);
    QuarterBelow(z, sz);
    QuarterBelow(x2, sx);
    QuarterBelow(y2, sy);
    QuarterBelow(z2, sz);
    BlockOfIndex(sx, sy, x, y, z);
    BlockOfIndex(sx, sy, x2, y2, z2);
    BlockIndexInjective(sx / 4, sy / 4, sz / 4, x / 4, y / 4, z / 4, x2 / 4, y2 / 4, z2 / 4);
  }

  /** Two cells of the same 4x4x4 block with the same bit are the same cell. */
  lemma SameBit(x: nat, y: nat, z: nat, x2: nat, y2: nat, z2: nat)
    requires x / 4 == x2 / 4 && y / 4 == y2 / 4 && z / 4 == z2 / 4
    requires BitOf(x, y, z) == BitOf(x2, y2, z2)
    ensures x == x2 && y == y2 && z == z2
  {
    BitFields(x, y, z);
    BitFields(x2, y2, z2);
    DigitsUnique(WordOf(y, z), LaneOf(x, y), WordOf(y2, z2), LaneOf(x2, y2));
  }

  /** With sizes multiple of 4, two in-grid cells never share a bit. */
  lemma ResolveInjective(sx: nat, sy: nat, sz: nat, x: int, y: int, z: int, x2: int, y2: int, z2: int)
    requires Multiple4(sx, sy, sz) && InGrid3(sx, sy, sz, x, y, z) && InGrid3(sx, sy, sz, x2, y2, z2)
    requires Resolve(sx, sy, sz, x, y, z) == Resolve(sx, sy, sz, x2, y2, z2)
    ensures x == x2 && y == y2 && z == z2
  {
    SameBlock(sx, sy, sz, x, y, z, x2, y2, z2);
    SameBit(x, y, z, x2, y2, z2);
  }

  /** The same, stated on the `index * 64 + bit` slots. */
  lemma CellBitInjective(sx: nat, sy: nat, sz: nat, x: nat, y: nat, z: nat, x2: nat, y2: nat, z2: nat)
    requires Multiple4(sx, sy, sz) && InGrid3(sx, sy, sz, x, y, z) && InGrid3(sx, sy, sz, x2, y2, z2)
    requires CellBit(sx, sy, x, y, z) == CellBit(sx, sy, x2, y2, z2)
    ensures x == x2 && y == y2 && z == z2
  {
    ResolveInRange(sx, sy, sz, x, y, z);
    ResolveInRange(sx, sy, sz, x2, y2, z2);
    ResolveInjective(sx, sy, sz, x, y, z, x2, y2, z2);
  }

  /** The `resolve` test, on an 8x8x8 grid: the origin. */
  lemma ResolveOrigin()
    ensures Resolve(8, 8, 8, 0, 0, 0) == Some((0, 0))
  {
  }

  /** The `resolve` test: `(1, 1, 1)` is bit 21 of block 0. */
  lemma ResolveOne()
    ensures Resolve(8, 8, 8, 1, 1, 1) == Some((0, 21))
  {
  }

  /** The `resolve` test: `(4, 0, 0)` is bit 0 of block 1. */
  lemma ResolveX4()
    ensures Resolve(8, 8, 8, 4, 0, 0) == Some((1, 0))
  {
    assert BlockOf(8, 8, 4, 0, 0) == 1;
  }

  /** The `resolve` test: `(4, 4, 4)` is bit 0 of the last block. */
  lemma ResolveFour()
    ensures Resolve(8, 8, 8, 4, 4, 4) == Some((7, 0))
  {
  }

  /** The `resolve` test: `(7, 7, 7)` is bit 63 of the last block. */
  lemma ResolveSeven()
    ensures Resolve(8, 8, 8, 7, 7, 7) == Some((7, 63))
  {
  }

  /** `resolve` as written, on a grid of 5, 6 or 7 cells per axis: the
      strides `size / 4` round down to 1 while `get_bitblock_count` rounds
      up to 2 blocks per axis, so the cells `(4, 0, 0)`, `(0, 4, 0)` and
      `(0, 0, 4)` all resolve to bit 0 of block 1. */
  lemma ResolveAliases(s: nat)
    requires 4 < s < 8
    ensures Resolve(s, s, s, 4, 0, 0) == Some((1, 0))
    ensures Resolve(s, s, s, 0, 4, 0) == Some((1, 0))
    ensures Resolve(s, s, s, 0, 0, 4) == Some((1, 0))
  {
    assert Mul(1, 4) == 4;
    DivUnique(s, 4, 1, s - 4);
    FourthBlockX(s, s, s);
    FourthBlockY(s, s, s);
    FourthBlockZ(s, s, s);
  }

  /** `(4, 0, 0)` is bit 0 of block 1 when the strides are 1. */
  lemma FourthBlockX(sx: nat, sy: nat, sz: nat)
    requires sx / 4 == 1 && sy / 4 == 1 && 4 < sx && 4 < sy && 4 < sz
    ensures Resolve(sx, sy, sz, 4, 0, 0) == Some((1, 0))
  {
    assert Mul(0, 1) == 0 && Mul(Mul(0, 1), 1) == 0;
    assert BlockOf(sx, sy, 4, 0, 0) == 1 && BitOf(4, 0, 0) == 0;
  }

  /** `(0, 4, 0)` is bit 0 of block 1 when the strides are 1. */
  lemma FourthBlockY(sx: nat, sy: nat, sz: nat)
    requires sx / 4 == 1 && sy / 4 == 1 && 4 < sx && 4 < sy && 4 < sz
    ensures Resolve(sx, sy, sz, 0, 4, 0) == Some((1, 0))
  {
    assert Mul(0, 1) == 0 && Mul(Mul(0, 1), 1) == 0 && Mul(1, 1) == 1;
    assert BlockOf(sx, sy, 0, 4, 0) == 1 && BitOf(0, 4, 0) == 0;
  }

  /** `(0, 0, 4)` is bit 0 of block 1 when the strides are 1. */
  lemma FourthBlockZ(sx: nat, sy: nat, sz: nat)
    requires sx / 4 == 1 && sy / 4 == 1 && 4 < sx && 4 < sy && 4 < sz
    ensures Resolve(sx, sy, sz, 0, 0, 4) == Some((1, 0))
  {
    assert Mul(0, 1) == 0 && Mul(1, 1) == 1 && Mul(Mul(1, 1), 1) == 1;
    assert BlockOf(sx, sy, 0, 0, 4) == 1 && BitOf(0, 0, 4) == 0;
  }

  /** Bit `BitOf` of block `(x / 4, y / 4, z / 4)` in a lattice of blocks
      `cx` wide and `cy` deep: the layout of the neighbour counter. */
  function LatticeBit(cx: nat, cy: nat, x: nat, y: nat, z: nat): nat
  {
    64 * BlockIndex(cx, cy, x / 4, y / 4, z / 4) + BitOf(x, y, z)
  }

  /** `resolve` with the sizes divided by 4 rounding up, as
      `get_bitblock_count` and the neighbour counter divide them. */
  function ResolveCeil(sx: nat, sy: nat, sz: nat, x: int, y: int, z: int): (r: Option<(nat, nat)>)
    ensures r.Some? <==> InGrid3(sx, sy, sz, x, y, z)
    ensures r.Some? ==> r.value.1 < 64
  {
    if x < 0 || y < 0 || z < 0 || x >= sx || y >= sy || z >= sz then None
    else Some((BlockIndex((sx + 3) / 4, (sy + 3) / 4, x / 4, y / 4, z / 4), BitOf(x, y, z)))
  }

  /** The rounded-up `resolve` gives every in-grid cell of a grid of any
      size a bit of its own, within `get_bitblock_count` blocks. */
  lemma ResolveCeilExact(sx: nat, sy: nat, sz: nat, x: int, y: int, z: int, x2: int, y2: int, z2: int)
    requires InGrid3(sx, sy, sz, x, y, z) && InGrid3(sx, sy, sz, x2, y2, z2)
    ensures ResolveCeil(sx, sy, sz, x, y, z).value.0 < BitblockCount3(sx, sy, sz)
    ensures ResolveCeil(sx, sy, sz, x, y, z) == ResolveCeil(sx, sy, sz, x2, y2, z2) ==> x == x2 && y == y2 && z == z2
  {
    var cx, cy, cz := (sx + 3) / 4, (sy + 3) / 4, (sz + 3) / 4;
    CountIsLattice(sx, sy, sz);
    BlockIndexBound(cx, cy, cz, x / 4, y / 4, z / 4);
    if ResolveCeil(sx, sy, sz, x, y, z) == ResolveCeil(sx, sy, sz, x2, y2, z2) {
      BlockIndexInjective(cx, cy, cz, x / 4, y / 4, z / 4, x2 / 4, y2 / 4, z2 / 4);
      SameBit(x, y, z, x2, y2, z2);
    }
  }

  /** With sizes multiple of 4 the rounded-up `resolve` is `resolve`. */
  lemma ResolveCeilAgrees(sx: nat, sy: nat, sz: nat, x: int, y: int, z: int)
    requires Multiple4(sx, sy, sz)
    ensures ResolveCeil(sx, sy, sz, x, y, z) == Resolve(sx, sy, sz, x, y, z)
  {
    if InGrid3(sx, sy, sz, x, y, z) {
      BlockOfIndex(sx, sy, x, y, z);
    }
  }

  // ------------------------------------------------------ the grid

  /** `data` holds the cells `cells` of a grid of `sx * sy * sz` cells:
      exactly `get_bitblock_count` blocks, and every in-grid cell is its
      bit. */
  ghost predicate Represents(sx: nat, sy: nat, sz: nat, data: seq<Word64>, cells: (int, int, int) -> bool)
  {
    && |data| == BitblockCount3(sx, sy, sz)
    && forall x: nat, y: nat, z: nat {:trigger Packed(data, CellBit(sx, sy, x, y, z))} ::
         InGrid3(sx, sy, sz, x, y, z) ==> cells(x, y, z) == Packed(data, CellBit(sx, sy, x, y, z))
  }

  /** The cells that `data` encodes. */
  function Unpack3(sx: nat, sy: nat, data: seq<Word64>): (int, int, int) -> bool
  {
    (x: int, y: int, z: int) => x >= 0 && y >= 0 && z >= 0 && Packed(data, CellBit(sx, sy, x, y, z))
  }

  /** `cells` once the bit of the in-grid cell `(x, y, z)` is set to
      `value`: every in-grid cell that resolves to that bit reads `value`. */
  function SetBit3(cells: (int, int, int) -> bool, sx: nat, sy: nat, sz: nat, x: nat, y: nat, z: nat, value: bool)
    : (int, int, int) -> bool
  {
    (x2: int, y2: int, z2: int) =>
      if InGrid3(sx, sy, sz, x2, y2, z2) && CellBit(sx, sy, x2, y2, z2) == CellBit(sx, sy, x, y, z) then value
      else cells(x2, y2, z2)
  }

  /** With sizes multiple of 4 the cell itself is the only one with its
      bit, so setting the bit updates that cell alone. */
  lemma SetBitIsUpdate(cells: (int, int, int) -> bool, sx: nat, sy: nat, sz: nat, x: nat, y: nat, z: nat, value: bool)
    requires Multiple4(sx, sy, sz) && InGrid3(sx, sy, sz, x, y, z)
    ensures forall x2, y2, z2 :: SetBit3(cells, sx, sy, sz, x, y, z, value)(x2, y2, z2) == Update3(cells, x, y, z, value)(x2, y2, z2)
  {
    forall x2, y2, z2
      ensures SetBit3(cells, sx, sy, sz, x, y, z, value)(x2, y2, z2) == Update3(cells, x, y, z, value)(x2, y2, z2)
    {
      if InGrid3(sx, sy, sz, x2, y2, z2) && CellBit(sx, sy, x2, y2, z2) == CellBit(sx, sy, x, y, z) {
        CellBitInjective(sx, sy, sz, x, y, z, x2, y2, z2);
      }
    }
  }

  lemma Digit4(q: nat, r: nat)
    requires r < 4
    ensures (4 * q + r) / 4 == q && (4 * q + r) % 4 == r
  {
  }

  lemma Digit2(q: nat, r: nat)
    requires r < 2
    ensures (2 * q + r) / 2 == q && (2 * q + r) % 2 == r
  {
  }

  /** Byte `k` of word `i` of block `(px, py, pz)` is the cell whose bit
      has those fields. */
  lemma SlotCell(px: nat, py: nat, pz: nat, i: nat, k: nat)
    requires i < 8 && k < 8
    ensures var x, y, z := CellX(px, k), CellY(py, i, k), CellZ(pz, i);
      && 4 * px <= x < 4 * px + 4 && 4 * py <= y < 4 * py + 4 && 4 * pz <= z < 4 * pz + 4
      && x / 4 == px && y / 4 == py && z / 4 == pz
      && WordOf(y, z) == i && LaneOf(x, y) == k
  {
    var x, y, z := CellX(px, k), CellY(py, i, k), CellZ(pz, i);
    Digit4(px, k % 4);
    Digit4(py, 2 * (i % 2) + k / 4);
    Digit4(pz, i / 2);
    Digit2(i % 2, k / 4);
    LowBits(y);
    Digit2(i / 2, i % 2);
    Digit2(k / 4 * 2, k % 4 % 2);
  }

  /** Setting the bit of one in-grid cell makes the blocks represent the
      grid in which the cells sharing that bit hold `value` and every other
      cell is unchanged. */
  lemma RepresentsUpdate(sx: nat, sy: nat, sz: nat, data: seq<Word64>, cells: (int, int, int) -> bool,
                         x: nat, y: nat, z: nat, value: bool, data2: seq<Word64>)
    requires Represents(sx, sy, sz, data, cells) && InGrid3(sx, sy, sz, x, y, z)
    requires BlockOf(sx, sy, x, y, z) < |data|
    requires data2 == data[BlockOf(sx, sy, x, y, z) := data[BlockOf(sx, sy, x, y, z)][BitOf(x, y, z) := value]]
    ensures Represents(sx, sy, sz, data2, SetBit3(cells, sx, sy, sz, x, y, z, value))
  {
    var cells2 := SetBit3(cells, sx, sy, sz, x, y, z, value);
    forall x2: nat, y2: nat, z2: nat | InGrid3(sx, sy, sz, x2, y2, z2)
      ensures cells2(x2, y2, z2) == Packed(data2, CellBit(sx, sy, x2, y2, z2))
    {
      assert cells(x2, y2, z2) == Packed(data, CellBit(sx, sy, x2, y2, z2));
      ResolveInRange(sx, sy, sz, x, y, z);
      ResolveInRange(sx, sy, sz, x2, y2, z2);
    }
  }

  // ------------------------------------------------------ the counts

  /** The cells the neighbour counter sees in `data`: the `4 * cx` by
      `4 * cy` by `4 * cz` cells its blocks cover, cell `(x, y, z)` being
      its `LatticeBit`, and nothing alive around them.  Where a size is not
      a multiple of 4 this runs past the grid, over the padding bits of
      the last blocks. */
  function Lattice3(data: seq<Word64>, cx: nat, cy: nat, cz: nat): (int, int, int) -> bool
  {
    (x: int, y: int, z: int) => InGrid3(4 * cx, 4 * cy, 4 * cz, x, y, z) && Packed(data, LatticeBit(cx, cy, x, y, z))
  }

  /** Byte `k` of word `i` of a block holds the lattice cell of that
      byte. */
  lemma LatticeAtSlot(data: seq<Word64>, cx: nat, cy: nat, cz: nat, px: nat, py: nat, pz: nat, i: nat, k: nat)
    requires InBlocks(cx, cy, cz, px, py, pz) && i < 8 && k < 8
    ensures Packed(data, Slot(cx, cy, px, py, pz, i, k)) == Lattice3(data, cx, cy, cz)(CellX(px, k), CellY(py, i, k), CellZ(pz, i))
  {
    var x, y, z := CellX(px, k), CellY(py, i, k), CellZ(pz, i);
    SlotCell(px, py, pz, i, k);
    BitFields(x, y, z);
    assert LatticeBit(cx, cy, x, y, z) == Slot(cx, cy, px, py, pz, i, k);
    assert InGrid3(4 * cx, 4 * cy, 4 * cz, x, y, z);
  }

  /** Any blocks are the encoding, for the neighbour counter, of the
      lattice they cover. */
  lemma LatticeEncodes(data: seq<Word64>, cx: nat, cy: nat, cz: nat)
    requires |data| == BlockCount(cx, cy, cz)
    ensures Encodes(data, cx, cy, cz, Lattice3(data, cx, cy, cz))
  {
    forall px: nat, py: nat, pz: nat, i: nat, k: nat | InBlocks(cx, cy, cz, px, py, pz) && i < 8 && k < 8
      ensures Packed(data, Slot(cx, cy, px, py, pz, i, k)) == Lattice3(data, cx, cy, cz)(CellX(px, k), CellY(py, i, k), CellZ(pz, i))
    {
      LatticeAtSlot(data, cx, cy, cz, px, py, pz, i, k);
    }
  }

  /** Block `(px, py, pz)` of slot `s`, in a lattice of blocks `cx` wide
      and `cy` deep numbered X fastest: block `s / 64`. */
  function SlotBlock(cx: nat, cy: nat, s: nat): (nat, nat, nat)
    requires cx > 0 && cy > 0
  {
    var b := s / 64;
    (b % cx, (b / cx) % cy, (b / cx) / cy)
  }

  /** The cell of slot `s`: byte `s % 8` of word `s % 64 / 8` of its block. */
  function SlotPos(cx: nat, cy: nat, s: nat): (int, int, int)
    requires cx > 0 && cy > 0
  {
    var (px, py, pz) := SlotBlock(cx, cy, s);
    (CellX(px, s % 8), CellY(py, s % 64 / 8, s % 8), CellZ(pz, s % 64 / 8))
  }

  /** Slot `s` is byte `s % 8` of word `s % 64 / 8` of block `s / 64`. */
  lemma SlotDigits(s: nat)
    ensures s % 64 / 8 < 8 && s % 8 < 8
    ensures s == 64 * (s / 64) + 8 * (s % 64 / 8) + s % 8
  {
    var q, t := s / 64, s % 64;
    assert s == 8 * (8 * q + t / 8) + t % 8;
  }

  /** Every slot of the counts is the slot of a block of the lattice. */
  lemma SlotDecode(cx: nat, cy: nat, cz: nat, s: nat)
    requires s < 64 * BlockCount(cx, cy, cz)
    ensures cx > 0 && cy > 0
    ensures var (px, py, pz) := SlotBlock(cx, cy, s);
      && InBlocks(cx, cy, cz, px, py, pz)
      && s == Slot(cx, cy, px, py, pz, s % 64 / 8, s % 8)
  {
    var b := s / 64;
    SlotDigits(s);
    DivBelow(b, Mul(cz, cy), cx);
    var q := b / cx;
    DivBelow(q, cz, cy);
    assert BlockIndex(cx, cy, b % cx, q % cy, q / cy) == b;
  }

  /** What the neighbour counter leaves at slot `s`: the live cells of the
      lattice among the 26 neighbours of the cell of that slot. */
  function LatticeCount(data: seq<Word64>, sx: nat, sy: nat, sz: nat, s: nat): (c: nat)
    ensures c <= 26
  {
    var cx, cy, cz := (sx + 3) / 4, (sy + 3) / 4, (sz + 3) / 4;
    if cx == 0 || cy == 0 then 0
    else
      var (x, y, z) := SlotPos(cx, cy, s);
      Moore26(Lattice3(data, cx, cy, cz), x, y, z)
  }

  /** `counts` is what the neighbour counter returns for `data`: one
      counter per bit, each the lattice count of its slot. */
  ghost predicate SlotCounts(counts: seq<nat>, sx: nat, sy: nat, sz: nat, data: seq<Word64>)
  {
    && |counts| == 64 * |data|
    && forall s: nat {:trigger LatticeCount(data, sx, sy, sz, s)} :: s < |counts| ==> counts[s] == LatticeCount(data, sx, sy, sz, s)
  }

  /** The counters of every block, as the neighbour counter leaves them,
      are the lattice counts of their slots. */
  lemma LatticeCounts(counts: seq<nat>, data: seq<Word64>, sx: nat, sy: nat, sz: nat)
    requires |data| == BitblockCount3(sx, sy, sz) && |counts| == 64 * |data|
    requires var cx, cy, cz := (sx + 3) / 4, (sy + 3) / 4, (sz + 3) / 4;
      Holds(counts, cx, cy, cz, Lattice3(data, cx, cy, cz), Neighbours, |data|)
    ensures SlotCounts(counts, sx, sy, sz, data)
  {
    var cx, cy, cz := (sx + 3) / 4, (sy + 3) / 4, (sz + 3) / 4;
    CountIsLattice(sx, sy, sz);
    forall s: nat | s < |counts|
      ensures counts[s] == LatticeCount(data, sx, sy, sz, s)
    {
      SlotDecode(cx, cy, cz, s);
      var (px, py, pz) := SlotBlock(cx, cy, s);
      BlockIndexBound(cx, cy, cz, px, py, pz);
      assert Slot(cx, cy, px, py, pz, s % 64 / 8, s % 8) == s;
    }
  }

  /** With sizes multiple of 4 the lattice is the grid, dead around it. */
  lemma LatticeIsGrid(sx: nat, sy: nat, sz: nat, data: seq<Word64>, cells: (int, int, int) -> bool)
    requires Multiple4(sx, sy, sz) && Represents(sx, sy, sz, data, cells)
    ensures forall x, y, z :: Lattice3(data, (sx + 3) / 4, (sy + 3) / 4, (sz + 3) / 4)(x, y, z)
                              == WithBorder3(cells, sx, sy, sz, false)(x, y, z)
  {
    var cx, cy, cz := (sx + 3) / 4, (sy + 3) / 4, (sz + 3) / 4;
    CountIsBlocks(sx, sy, sz);
    forall x, y, z
      ensures Lattice3(data, cx, cy, cz)(x, y, z) == WithBorder3(cells, sx, sy, sz, false)(x, y, z)
    {
      if InGrid3(sx, sy, sz, x, y, z) {
        BlockOfIndex(sx, sy, x, y, z);
        assert LatticeBit(cx, cy, x, y, z) == CellBit(sx, sy, x, y, z);
        assert cells(x, y, z) == Packed(data, CellBit(sx, sy, x, y, z));
      }
    }
  }

  /** A slot splits into its block, its word and its byte one way only. */
  lemma SlotUnique(b: nat, i: nat, k: nat, b2: nat, i2: nat, k2: nat)
    requires i < 8 && k < 8 && i2 < 8 && k2 < 8
    requires 64 * b + 8 * i + k == 64 * b2 + 8 * i2 + k2
    ensures b == b2 && i == i2 && k == k2
  {
  }

  /** With sizes multiple of 4 the slot of an in-grid cell is that cell. */
  lemma SlotOfCell(sx: nat, sy: nat, sz: nat, x: nat, y: nat, z: nat)
    requires Multiple4(sx, sy, sz) && InGrid3(sx, sy, sz, x, y, z)
    ensures (sx + 3) / 4 > 0 && (sy + 3) / 4 > 0
    ensures SlotPos((sx + 3) / 4, (sy + 3) / 4, CellBit(sx, sy, x, y, z)) == (x, y, z)
  {
    var cx, cy, cz := sx / 4, sy / 4, sz / 4;
    var s := CellBit(sx, sy, x, y, z);
    ResolveSlot(sx, sy, sz, x, y, z);
    ResolveInRange(sx, sy, sz, x, y, z);
    CountIsBlocks(sx, sy, sz);
    assert s < 64 * BlockCount(cx, cy, cz);
    SlotDecode(cx, cy, cz, s);
    var t := SlotBlock(cx, cy, s);
    SlotUnique(BlockIndex(cx, cy, t.0, t.1, t.2), s % 64 / 8, s % 8,
               BlockIndex(cx, cy, x / 4, y / 4, z / 4), WordOf(y, z), LaneOf(x, y));
    BlockIndexInjective(cx, cy, cz, t.0, t.1, t.2, x / 4, y / 4, z / 4);
  }

  lemma LatticeCountAt(data: seq<Word64>, sx: nat, sy: nat, sz: nat, s: nat, x: int, y: int, z: int)
    requires (sx + 3) / 4 > 0 && (sy + 3) / 4 > 0
    requires SlotPos((sx + 3) / 4, (sy + 3) / 4, s) == (x, y, z)
    ensures LatticeCount(data, sx, sy, sz, s) == Moore26(Lattice3(data, (sx + 3) / 4, (sy + 3) / 4, (sz + 3) / 4), x, y, z)
  {
  }

  /** With sizes multiple of 4 the lattice count at the slot of an in-grid
      cell is the Moore count of that cell in the grid. */
  lemma LatticeCountAtCell(sx: nat, sy: nat, sz: nat, data: seq<Word64>, cells: (int, int, int) -> bool,
                           x: nat, y: nat, z: nat)
    requires Multiple4(sx, sy, sz) && Represents(sx, sy, sz, data, cells) && InGrid3(sx, sy, sz, x, y, z)
    ensures LatticeCount(data, sx, sy, sz, CellBit(sx, sy, x, y, z)) == Moore26(WithBorder3(cells, sx, sy, sz, false), x, y, z)
  {
    var cx, cy, cz := (sx + 3) / 4, (sy + 3) / 4, (sz + 3) / 4;
    SlotOfCell(sx, sy, sz, x, y, z);
    LatticeCountAt(data, sx, sy, sz, CellBit(sx, sy, x, y, z), x, y, z);
    LatticeIsGrid(sx, sy, sz, data, cells);
    MooreSame(Lattice3(data, cx, cy, cz), WithBorder3(cells, sx, sy, sz, false), x, y, z);
  }

  /** `counts` holds, at the slot `index * 64 + bit` of every in-grid
      cell, the number of live cells of `alive` among its 26 neighbours. */
  ghost predicate CountsAt(counts: seq<nat>, sx: nat, sy: nat, sz: nat, alive: (int, int, int) -> bool)
  {
    forall x, y, z {:trigger Moore26(alive, x, y, z)} :: InGrid3(sx, sy, sz, x, y, z) ==>
      && CellBit(sx, sy, x, y, z) < |counts|
      && counts[CellBit(sx, sy, x, y, z)] == Moore26(alive, x, y, z)
  }

  /** With sizes multiple of 4 the counts of a represented grid hold the
      Moore count of every in-grid cell at its `resolve` slot. */
  lemma CountsAtCells(counts: seq<nat>, sx: nat, sy: nat, sz: nat, data: seq<Word64>, cells: (int, int, int) -> bool)
    requires Multiple4(sx, sy, sz) && Represents(sx, sy, sz, data, cells)
    requires SlotCounts(counts, sx, sy, sz, data)
    ensures CountsAt(counts, sx, sy, sz, WithBorder3(cells, sx, sy, sz, false))
  {
    forall x, y, z | InGrid3(sx, sy, sz, x, y, z)
      ensures CellBit(sx, sy, x, y, z) < |counts|
      ensures counts[CellBit(sx, sy, x, y, z)] == Moore26(WithBorder3(cells, sx, sy, sz, false), x, y, z)
    {
      ResolveInRange(sx, sy, sz, x, y, z);
      LatticeCountAtCell(sx, sy, sz, data, cells, x, y, z);
    }
  }

  // ------------------------------------------------------ the step

  /** The rule step of one cell: a live cell survives when `survive` holds
      its count, a dead one is born when `birth` does. */
  function Next3(rule: Rule3, alive: bool, c: nat): bool
    requires c < 32
  {
    if alive then rule.survive.Has(c) else rule.birth.Has(c)
  }

  /** The next generation of every cell under `rule`, neighbours off the
      grid counting as dead: the textbook synchronous birth/survive step. */
  function Step3(rule: Rule3, cells: (int, int, int) -> bool, sx: nat, sy: nat, sz: nat): (int, int, int) -> bool
  {
    (x: int, y: int, z: int) => Next3(rule, cells(x, y, z), Moore26(WithBorder3(cells, sx, sy, sz, false), x, y, z))
  }

  /** The state `b` after the rule step is applied `n` times with the
      same count `c`. */
  function Repeat(rule: Rule3, b: bool, c: nat, n: nat): bool
    requires c < 32
  {
    if n == 0 then b else Next3(rule, Repeat(rule, b, c, n - 1), c)
  }

  /** The cells `(0, j, k)` to `(i - 1, j, k)` of a row whose bit is
      slot `s`. */
  function RowHits(sx: nat, sy: nat, s: nat, i: nat, j: nat, k: nat): nat
  {
    if i == 0 then 0
    else RowHits(sx, sy, s, i - 1, j, k) + (if CellBit(sx, sy, i - 1, j, k) == s then 1 else 0)
  }

  /** The cells of rows `0` to `j - 1` of layer `k` whose bit is slot `s`. */
  function LayerHits(sx: nat, sy: nat, s: nat, j: nat, k: nat): nat
  {
    if j == 0 then 0 else LayerHits(sx, sy, s, j - 1, k) + RowHits(sx, sy, s, sx, j - 1, k)
  }

  /** The cells of layers `0` to `k - 1` whose bit is slot `s`. */
  function GridHits(sx: nat, sy: nat, s: nat, k: nat): nat
  {
    if k == 0 then 0 else GridHits(sx, sy, s, k - 1) + LayerHits(sx, sy, s, sy, k - 1)
  }

  /** The cells the loops of `apply_rule_ref` have visited before
      `(i, j, k)` whose bit is slot `s`. */
  function Visits(sx: nat, sy: nat, s: nat, i: nat, j: nat, k: nat): nat
  {
    GridHits(sx, sy, s, k) + LayerHits(sx, sy, s, j, k) + RowHits(sx, sy, s, i, j, k)
  }

  /** The in-grid cells whose bit is slot `s`: how many times the loops of
      `apply_rule_ref` set that bit. */
  function Hits(sx: nat, sy: nat, sz: nat, s: nat): nat
  {
    GridHits(sx, sy, s, sz)
  }

  /** Part way through the loops of `apply_rule_ref`, before the cell
      `(i, j, k)`: every bit of `data` is its bit in `d0` with the rule
      applied once per visited cell that resolves to it, each time with the
      count at its slot. */
  ghost predicate Replayed(rule: Rule3, d0: seq<Word64>, data: seq<Word64>, counts: seq<nat>,
                           sx: nat, sy: nat, i: nat, j: nat, k: nat)
  {
    && |data| == |d0| && |counts| == 64 * |d0|
    && forall s: nat {:trigger Packed(data, s)} :: s < |counts| ==>
         counts[s] < 32 && Packed(data, s) == Repeat(rule, Packed(d0, s), counts[s], Visits(sx, sy, s, i, j, k))
  }

  /** Nothing is visited at the start. */
  lemma ReplayedStart(rule: Rule3, d0: seq<Word64>, counts: seq<nat>, sx: nat, sy: nat, sz: nat)
    requires SlotCounts(counts, sx, sy, sz, d0)
    ensures Replayed(rule, d0, d0, counts, sx, sy, 0, 0, 0)
  {
    forall s: nat | s < |counts|
      ensures counts[s] < 32 && Packed(d0, s) == Repeat(rule, Packed(d0, s), counts[s], Visits(sx, sy, s, 0, 0, 0))
    {
      assert counts[s] == LatticeCount(d0, sx, sy, sz, s);
    }
  }

  /** Visiting `(i, j, k)` counts one more visit of its slot alone. */
  lemma VisitsStep(sx: nat, sy: nat, s: nat, i: nat, j: nat, k: nat)
    ensures Visits(sx, sy, s, i + 1, j, k) == Visits(sx, sy, s, i, j, k) + if CellBit(sx, sy, i, j, k) == s then 1 else 0
  {
  }

  /** Setting the bit of `(i, j, k)` to its next state with the count at
      its slot moves on to `(i + 1, j, k)`. */
  lemma ReplayedCell(rule: Rule3, d0: seq<Word64>, data: seq<Word64>, counts: seq<nat>,
                     sx: nat, sy: nat, sz: nat, i: nat, j: nat, k: nat, data2: seq<Word64>)
    requires Replayed(rule, d0, data, counts, sx, sy, i, j, k) && InGrid3(sx, sy, sz, i, j, k)
    requires BlockOf(sx, sy, i, j, k) < |data|
    requires CellBit(sx, sy, i, j, k) < |counts| && counts[CellBit(sx, sy, i, j, k)] < 32
    requires data2 == data[BlockOf(sx, sy, i, j, k) := data[BlockOf(sx, sy, i, j, k)][BitOf(i, j, k) :=
               Next3(rule, Packed(data, CellBit(sx, sy, i, j, k)), counts[CellBit(sx, sy, i, j, k)])]]
    ensures Replayed(rule, d0, data2, counts, sx, sy, i + 1, j, k)
  {
    var s0 := CellBit(sx, sy, i, j, k);
    ResolveInRange(sx, sy, sz, i, j, k);
    var v := Next3(rule, Packed(data, s0), counts[s0]);
    assert data2 == data[s0 / 64 := data[s0 / 64][s0 % 64 := v]];
    forall s: nat | s < |counts|
      ensures counts[s] < 32 && Packed(data2, s) == Repeat(rule, Packed(d0, s), counts[s], Visits(sx, sy, s, i + 1, j, k))
    {
      ghost var b := Packed(data, s);
      ReplayedSlot(rule, d0, data, counts, sx, sy, i, j, k, s0, data2, s);
    }
  }

  /** One slot of `ReplayedCell`: only the slot of `(i, j, k)` changes, by
      one more application of the rule. */
  lemma ReplayedSlot(rule: Rule3, d0: seq<Word64>, data: seq<Word64>, counts: seq<nat>,
                     sx: nat, sy: nat, i: nat, j: nat, k: nat, s0: nat, data2: seq<Word64>, s: nat)
    requires s0 == CellBit(sx, sy, i, j, k) && s0 / 64 < |data| && s0 < |counts| && counts[s0] < 32 && s < |counts|
    requires counts[s] < 32 && Packed(data, s) == Repeat(rule, Packed(d0, s), counts[s], Visits(sx, sy, s, i, j, k))
    requires data2 == data[s0 / 64 := data[s0 / 64][s0 % 64 := Next3(rule, Packed(data, s0), counts[s0])]]
    ensures Packed(data2, s) == Repeat(rule, Packed(d0, s), counts[s], Visits(sx, sy, s, i + 1, j, k))
  {
    VisitsStep(sx, sy, s, i, j, k);
    PackedSet(data, s0, Next3(rule, Packed(data, s0), counts[s0]), s);
    if s == s0 {
      assert Visits(sx, sy, s, i + 1, j, k) == Visits(sx, sy, s, i, j, k) + 1;
    } else {
      assert Packed(data2, s) == Packed(data, s);
    }
  }

  /** A finished row moves on to the next row. */
  lemma ReplayedRow(rule: Rule3, d0: seq<Word64>, data: seq<Word64>, counts: seq<nat>, sx: nat, sy: nat, j: nat, k: nat)
    requires Replayed(rule, d0, data, counts, sx, sy, sx, j, k)
    ensures Replayed(rule, d0, data, counts, sx, sy, 0, j + 1, k)
  {
    forall s: nat | s < |counts|
      ensures counts[s] < 32 && Packed(data, s) == Repeat(rule, Packed(d0, s), counts[s], Visits(sx, sy, s, 0, j + 1, k))
    {
      ghost var b := Packed(data, s);
      assert Packed(data, s) == Repeat(rule, Packed(d0, s), counts[s], Visits(sx, sy, s, sx, j, k));
      assert Visits(sx, sy, s, 0, j + 1, k) == Visits(sx, sy, s, sx, j, k);
    }
  }

  /** A finished layer moves on to the next layer. */
  lemma ReplayedLayer(rule: Rule3, d0: seq<Word64>, data: seq<Word64>, counts: seq<nat>, sx: nat, sy: nat, k: nat)
    requires Replayed(rule, d0, data, counts, sx, sy, 0, sy, k)
    ensures Replayed(rule, d0, data, counts, sx, sy, 0, 0, k + 1)
  {
    forall s: nat | s < |counts|
      ensures counts[s] < 32 && Packed(data, s) == Repeat(rule, Packed(d0, s), counts[s], Visits(sx, sy, s, 0, 0, k + 1))
    {
      ghost var b := Packed(data, s);
      assert Packed(data, s) == Repeat(rule, Packed(d0, s), counts[s], Visits(sx, sy, s, 0, sy, k));
      assert Visits(sx, sy, s, 0, 0, k + 1) == Visits(sx, sy, s, 0, sy, k);
    }
  }

  /** After the last layer every slot has been set once per in-grid cell
      that resolves to it. */
  lemma ReplayedEnd(rule: Rule3, d0: seq<Word64>, data: seq<Word64>, counts: seq<nat>, sx: nat, sy: nat, sz: nat)
    requires Replayed(rule, d0, data, counts, sx, sy, 0, 0, sz)
    ensures forall s: nat {:trigger Packed(data, s)} :: s < |counts| ==>
      counts[s] < 32 && Packed(data, s) == Repeat(rule, Packed(d0, s), counts[s], Hits(sx, sy, sz, s))
  {
    forall s: nat | s < |counts|
      ensures counts[s] < 32 && Packed(data, s) == Repeat(rule, Packed(d0, s), counts[s], Hits(sx, sy, sz, s))
    {
      ghost var b := Packed(data, s);
      assert Packed(data, s) == Repeat(rule, Packed(d0, s), counts[s], Visits(sx, sy, s, 0, 0, sz));
      assert Visits(sx, sy, s, 0, 0, sz) == Hits(sx, sy, sz, s);
    }
  }

  /** With sizes multiple of 4 the loops visit the cell `(x, y, z)` once
      in its row: row `j` of layer `k`, up to `i`, holds it when it is that
      row and `x < i`. */
  lemma {:induction false} RowHitsAt(sx: nat, sy: nat, sz: nat, x: nat, y: nat, z: nat, i: nat, j: nat, k: nat)
    requires Multiple4(sx, sy, sz) && InGrid3(sx, sy, sz, x, y, z)
    requires i <= sx && j < sy && k < sz
    ensures RowHits(sx, sy, CellBit(sx, sy, x, y, z), i, j, k) == if j == y && k == z && x < i then 1 else 0
  {
    if i > 0 {
      RowHitsAt(sx, sy, sz, x, y, z, i - 1, j, k);
      if CellBit(sx, sy, i - 1, j, k) == CellBit(sx, sy, x, y, z) {
        CellBitInjective(sx, sy, sz, i - 1, j, k, x, y, z);
      }
    }
  }

  /** ... and once in its layer. */
  lemma {:induction false} LayerHitsAt(sx: nat, sy: nat, sz: nat, x: nat, y: nat, z: nat, j: nat, k: nat)
    requires Multiple4(sx, sy, sz) && InGrid3(sx, sy, sz, x, y, z)
    requires j <= sy && k < sz
    ensures LayerHits(sx, sy, CellBit(sx, sy, x, y, z), j, k) == if k == z && y < j then 1 else 0
  {
    if j > 0 {
      LayerHitsAt(sx, sy, sz, x, y, z, j - 1, k);
      RowHitsAt(sx, sy, sz, x, y, z, sx, j - 1, k);
    }
  }

  /** ... and once in the grid. */
  lemma {:induction false} GridHitsAt(sx: nat, sy: nat, sz: nat, x: nat, y: nat, z: nat, k: nat)
    requires Multiple4(sx, sy, sz) && InGrid3(sx, sy, sz, x, y, z)
    requires k <= sz
    ensures GridHits(sx, sy, CellBit(sx, sy, x, y, z), k) == if z < k then 1 else 0
  {
    if k > 0 {
      GridHitsAt(sx, sy, sz, x, y, z, k - 1);
      LayerHitsAt(sx, sy, sz, x, y, z, sy, k - 1);
    }
  }

  /** With sizes multiple of 4 `apply_rule_ref` sets the bit of every
      in-grid cell exactly once. */
  lemma HitsOnce(sx: nat, sy: nat, sz: nat, x: nat, y: nat, z: nat)
    requires Multiple4(sx, sy, sz) && InGrid3(sx, sy, sz, x, y, z)
    ensures Hits(sx, sy, sz, CellBit(sx, sy, x, y, z)) == 1
  {
    GridHitsAt(sx, sy, sz, x, y, z, sz);
  }

  /** With sizes multiple of 4, a cell whose bit was set once with the
      lattice count of its slot holds its textbook next state. */
  lemma ReplayAtCell(rule: Rule3, d0: seq<Word64>, cells0: (int, int, int) -> bool, b: bool,
                     sx: nat, sy: nat, sz: nat, x: nat, y: nat, z: nat)
    requires Multiple4(sx, sy, sz) && Represents(sx, sy, sz, d0, cells0) && InGrid3(sx, sy, sz, x, y, z)
    requires var s := CellBit(sx, sy, x, y, z);
      b == Repeat(rule, Packed(d0, s), LatticeCount(d0, sx, sy, sz, s), Hits(sx, sy, sz, s))
    ensures b == Step3(rule, cells0, sx, sy, sz)(x, y, z)
  {
    HitsOnce(sx, sy, sz, x, y, z);
    LatticeCountAtCell(sx, sy, sz, d0, cells0, x, y, z);
    assert cells0(x, y, z) == Packed(d0, CellBit(sx, sy, x, y, z));
  }

  /** With sizes multiple of 4, setting each bit once per cell with the
      lattice counts is the textbook step of the grid. */
  lemma ReplayIsStep(rule: Rule3, d0: seq<Word64>, data: seq<Word64>, cells0: (int, int, int) -> bool,
                     cells: (int, int, int) -> bool, sx: nat, sy: nat, sz: nat)
    requires Multiple4(sx, sy, sz)
    requires Represents(sx, sy, sz, d0, cells0) && Represents(sx, sy, sz, data, cells) && |data| == |d0|
    requires forall s: nat {:trigger Packed(data, s)} :: s < 64 * |d0| ==>
      Packed(data, s) == Repeat(rule, Packed(d0, s), LatticeCount(d0, sx, sy, sz, s), Hits(sx, sy, sz, s))
    ensures forall x, y, z :: InGrid3(sx, sy, sz, x, y, z) ==> cells(x, y, z) == Step3(rule, cells0, sx, sy, sz)(x, y, z)
  {
    forall x, y, z | InGrid3(sx, sy, sz, x, y, z)
      ensures cells(x, y, z) == Step3(rule, cells0, sx, sy, sz)(x, y, z)
    {
      ResolveInRange(sx, sy, sz, x, y, z);
      assert cells(x, y, z) == Packed(data, CellBit(sx, sy, x, y, z));
      ReplayAtCell(rule, d0, cells0, cells(x, y, z), sx, sy, sz, x, y, z);
    }
  }

  class Grid3 {
    /** `size`, in cells. */
    const sx: nat
    const sy: nat
    const sz: nat
    /** The bit blocks. */
    var data: seq<Word64>
    /** The state of every cell of the grid, as `data` encodes it. */
    ghost var cells: (int, int, int) -> bool

    ghost predicate Valid()
      reads this
    {
      Represents(sx, sy, sz, data, cells)
    }

    /** `Grid3::new`: no block allocated yet. */
    constructor (sx: nat, sy: nat, sz: nat)
      ensures this.sx == sx && this.sy == sy && this.sz == sz && data == []
    {
      this.sx := sx;
      this.sy := sy;
      this.sz := sz;
      data := [];
      cells := Unpack3(sx, sy, []);
    }

    /** `fill`: resizes the blocks to `get_bitblock_count`, appending all-ones
        or all-zeros blocks, padding bits included; existing blocks are
        kept, so only a grid without blocks is filled with `value`
        throughout. */
    method Fill(value: bool)
      modifies this
      ensures Valid() && |data| == BitblockCount3(sx, sy, sz)
      ensures forall b :: 0 <= b < |data| ==>
        data[b] == if b < |old(data)| then old(data)[b] else Span(64, 0, if value then 64 else 0)
      ensures old(data) == [] ==> forall x, y, z :: InGrid3(sx, sy, sz, x, y, z) ==> cells(x, y, z) == value
    {
      var word := if value then Span(64, 0, 64) else Span(64, 0, 0);
      data := Resize(data, BitblockCount3(sx, sy, sz), word);
      cells := Unpack3(sx, sy, data);
      if old(data) == [] {
        forall x, y, z | InGrid3(sx, sy, sz, x, y, z)
          ensures cells(x, y, z) == value
        {
          ResolveInRange(sx, sy, sz, x, y, z);
        }
      }
    }

    /** `cell`: the state of the cell at `(x, y, z)`, `None` off the grid. */
    method Cell(x: int, y: int, z: int) returns (r: Option<bool>)
      requires Valid()
      ensures r == if InGrid3(sx, sy, sz, x, y, z) then Some(cells(x, y, z)) else None
    {
      var res := Resolve(sx, sy, sz, x, y, z);
      if res.Some? {
        var (index, bit) := res.value;
        ResolveInRange(sx, sy, sz, x, y, z);
        assert cells(x, y, z) == Packed(data, CellBit(sx, sy, x, y, z));
        r := Some(data[index][bit]);
      } else {
        r := None;
      }
    }

    /** `set_cell`: sets bit `bit` of block `index` to `value`; off the grid
        it does nothing.  Every cell that resolves to that bit reads `value`
        afterwards; with sizes multiple of 4 that is the cell alone. */
    method SetCell(x: int, y: int, z: int, value: bool)
      requires Valid()
      modifies this
      ensures Valid() && |data| == |old(data)|
      ensures !InGrid3(sx, sy, sz, x, y, z) ==> data == old(data) && cells == old(cells)
      ensures InGrid3(sx, sy, sz, x, y, z) ==>
        var (index, bit) := Resolve(sx, sy, sz, x, y, z).value;
        && index < |data|
        && data == old(data)[index := old(data)[index][bit := value]]
        && cells == SetBit3(old(cells), sx, sy, sz, x, y, z, value)
      ensures Multiple4(sx, sy, sz) ==> forall x2, y2, z2 :: InGrid3(sx, sy, sz, x2, y2, z2) ==>
        cells(x2, y2, z2) == Update3(old(cells), x, y, z, value)(x2, y2, z2)
    {
      var res := Resolve(sx, sy, sz, x, y, z);
      if res.Some? {
        var (index, bit) := res.value;
        ResolveInRange(sx, sy, sz, x, y, z);
        var mask := Bit(64, bit);
        if value {
          data := data[index := Or(data[index], mask)];
        } else {
          data := data[index := And(data[index], Not(mask))];
        }
        assert data[index] == old(data)[index][bit := value];
        RepresentsUpdate(sx, sy, sz, old(data), cells, x, y, z, value, data);
        if Multiple4(sx, sy, sz) {
          SetBitIsUpdate(cells, sx, sy, sz, x, y, z, value);
        }
        cells := SetBit3(cells, sx, sy, sz, x, y, z, value);
      }
    }

    /** The innermost loop of `count_neighbors_single`, over the row `j`
        of layer `k` from `x - 1` to `x + 1`: `count` grows by the live
        cells of the row, the centre `(x, y, z)` left out. */
    method CountRow(count0: nat, x: int, y: int, z: int, j: int, k: int, default: bool) returns (count: nat)
      requires Valid()
      ensures count == count0 + Row3(Without3(WithBorder3(cells, sx, sy, sz, default), x, y, z), x, j, k)
    {
      ghost var alive := Without3(WithBorder3(cells, sx, sy, sz, default), x, y, z);
      count := count0;
      var i := x - 1;
      while i <= x + 1
        invariant x - 1 <= i <= x + 2
        invariant count == count0 + RunSum3(alive, j, k, x - 1, i)
      {
        var cell := Cell(i, j, k);
        if (i != x || j != y || k != z) && cell.UnwrapOr(default) {
          count := count + 1;
        }
        i := i + 1;
      }
      RunRow3(alive, x, j, k);
    }

    /** `count_neighbors_single`: the live cells among the 26 neighbours of
        `(x, y, z)`, off-grid neighbours reading `default`. */
    method CountNeighborsSingle(x: int, y: int, z: int, default: bool) returns (count: nat)
      requires Valid()
      ensures count == Moore26(WithBorder3(cells, sx, sy, sz, default), x, y, z)
    {
      ghost var alive := Without3(WithBorder3(cells, sx, sy, sz, default), x, y, z);
      count := 0;
      var k := z - 1;
      while k <= z + 1
        invariant z - 1 <= k <= z + 2
        invariant count == PlanesSum3(alive, x, y, z - 1, k)
      {
        var j := y - 1;
        while j <= y + 1
          invariant y - 1 <= j <= y + 2
          invariant count == PlanesSum3(alive, x, y, z - 1, k) + RowsSum3(alive, x, k, y - 1, j)
        {
          count := CountRow(count, x, y, z, j, k, default);
          j := j + 1;
        }
        RowsPlane3(alive, x, y, k);
        k := k + 1;
      }
      CountingLoop3(WithBorder3(cells, sx, sy, sz, default), x, y, z);
    }

    /** `count_neighbors`, which is `count_neighbors_separable_m`: at every
        slot `index * 64 + bit`, the live cells among the 26 neighbours of
        the cell of that slot in the lattice of the blocks, whatever
        `default` says.  With sizes multiple of 4 that is, at the slot of
        every in-grid cell, what `count_neighbors_single(pos, false)`
        returns. */
    method CountNeighbors(default: bool) returns (counts: seq<nat>)
      requires Valid()
      ensures SlotCounts(counts, sx, sy, sz, data)
      ensures Multiple4(sx, sy, sz) ==> CountsAt(counts, sx, sy, sz, WithBorder3(cells, sx, sy, sz, false))
    {
      ghost var cx, cy, cz := (sx + 3) / 4, (sy + 3) / 4, (sz + 3) / 4;
      CountIsLattice(sx, sy, sz);
      LatticeEncodes(data, cx, cy, cz);
      var buffer := SeparableM(data, sx, sy, sz, default, Lattice3(data, cx, cy, cz));
      counts := buffer[..];
      LatticeCounts(counts, data, sx, sy, sz);
      if Multiple4(sx, sy, sz) {
        CountsAtCells(counts, sx, sy, sz, data, cells);
      }
    }

    /** The body of the loops of `apply_rule_ref` for the in-grid cell
        `(x, y, z)`: the cell is read from the grid as it is now, its count
        `c` from the counts of the grid before the step, and its bit is set
        to bit `c` of `survive` when alive, of `birth` when dead
        (`bits & 1 << c != 0`). */
    method StepCell(rule: Rule3, counts: seq<nat>, x: int, y: int, z: int, ghost d0: seq<Word64>)
      requires Valid() && InGrid3(sx, sy, sz, x, y, z)
      requires Replayed(rule, d0, data, counts, sx, sy, x, y, z)
      modifies this
      ensures Valid() && Replayed(rule, d0, data, counts, sx, sy, x + 1, y, z)
    {
      var cell := Cell(x, y, z);
      var (index, offset) := Resolve(sx, sy, sz, x, y, z).value;
      ResolveInRange(sx, sy, sz, x, y, z);
      ghost var s := CellBit(sx, sy, x, y, z);
      assert cell.value == Packed(data, s);
      var c := counts[index * 64 + offset];
      var b := Bit(32, c);
      BitTests(rule.survive.bits);
      BitTests(rule.birth.bits);
      ghost var data0 := data;
      if cell.value {
        SetCell(x, y, z, !IsZero(And(rule.survive.bits, b)));
      } else {
        SetCell(x, y, z, !IsZero(And(rule.birth.bits, b)));
      }
      ReplayedCell(rule, d0, data0, counts, sx, sy, sz, x, y, z, data);
    }

    /** `apply_rule_ref`: one step, `size - 1` panicking on an empty axis
        before anything changes.  Counts are taken on a copy of the grid
        made before the step and each in-grid cell in turn has the bit it
        resolves to set to the rule's verdict on that bit and that count:
        every bit ends up stepped once per cell that resolves to it.  With
        sizes multiple of 4 that is once per bit, and the step is the
        synchronous textbook step. */
    method ApplyRuleRef(rule: Rule3) returns (r: Outcome<()>)
      requires Valid()
      modifies this
      ensures Valid() && |data| == |old(data)|
      ensures r.Panic? <==> sx == 0 || sy == 0 || sz == 0
      ensures r.Panic? ==> data == old(data) && cells == old(cells)
      ensures r.Ok? ==> forall s: nat {:trigger Packed(data, s)} :: s < 64 * |data| ==>
        Packed(data, s) == Repeat(rule, Packed(old(data), s), LatticeCount(old(data), sx, sy, sz, s), Hits(sx, sy, sz, s))
      ensures r.Ok? && Multiple4(sx, sy, sz) ==>
        forall x, y, z :: InGrid3(sx, sy, sz, x, y, z) ==> cells(x, y, z) == Step3(rule, old(cells), sx, sy, sz)(x, y, z)
    {
      if sx == 0 || sy == 0 || sz == 0 {
        return Panic;
      }
      var imax, jmax, kmax := sx - 1, sy - 1, sz - 1;
      var default := false;
      var oldGrid := new Grid3(sx, sy, sz);
      oldGrid.data, oldGrid.cells := data, cells;
      var counts := oldGrid.CountNeighbors(default);
      ghost var d0 := data;
      ReplayedStart(rule, d0, counts, sx, sy, sz);
      var k := 0;
      while k <= kmax
        invariant 0 <= k <= sz
        invariant Valid() && Replayed(rule, d0, data, counts, sx, sy, 0, 0, k)
      {
        var j := 0;
        while j <= jmax
          invariant 0 <= j <= sy
          invariant Valid() && Replayed(rule, d0, data, counts, sx, sy, 0, j, k)
        {
          var i := 0;
          while i <= imax
            invariant 0 <= i <= sx
            invariant Valid() && Replayed(rule, d0, data, counts, sx, sy, i, j, k)
          {
            if default && (i == 0 || j == 0 || k == 0 || i == imax || j == jmax || k == kmax) {
              // `default` is `false`: the border branch is never taken.
              assert false;
            } else {
              StepCell(rule, counts, i, j, k, d0);
            }
            i := i + 1;
          }
          ReplayedRow(rule, d0, data, counts, sx, sy, j, k);
          j := j + 1;
        }
        ReplayedLayer(rule, d0, data, counts, sx, sy, k);
        k := k + 1;
      }
      ReplayedEnd(rule, d0, data, counts, sx, sy, sz);
      if Multiple4(sx, sy, sz) {
        ReplayIsStep(rule, old(data), data, old(cells), cells, sx, sy, sz);
      }
      r := Ok(());
    }

    /** `apply_rule`: the reference implementation. */
    method ApplyRule(rule: Rule3) returns (r: Outcome<()>)
      requires Valid()
      modifies this
      ensures Valid() && |data| == |old(data)|
      ensures r.Panic? <==> sx == 0 || sy == 0 || sz == 0
      ensures r.Panic? ==> data == old(data) && cells == old(cells)
      ensures r.Ok? ==> forall s: nat {:trigger Packed(data, s)} :: s < 64 * |data| ==>
        Packed(data, s) == Repeat(rule, Packed(old(data), s), LatticeCount(old(data), sx, sy, sz, s), Hits(sx, sy, sz, s))
      ensures r.Ok? && Multiple4(sx, sy, sz) ==>
        forall x, y, z :: InGrid3(sx, sy, sz, x, y, z) ==> cells(x, y, z) == Step3(rule, old(cells), sx, sy, sz)(x, y, z)
    {
      r := ApplyRuleRef(rule);
    }
  }
}
