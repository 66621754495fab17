/** The separable neighbour counter of the 3D grid (`acc_x`, `acc_y`,
    `acc_z`).

    The grid is cut into `cx * cy * cz` blocks of 4x4x4 cells, block
    `(px, py, pz)` being number `(pz * cy + py) * cx + px`.  Each block's
    64 counters are eight words of eight byte lanes: byte `k` of word `i`
    counts for the cell `x = 4 * px + k % 4`, `y = 4 * py + 2 * (i % 2) +
    k / 4`, `z = 4 * pz + i / 2`.  Each pass adds to every counter its two
    neighbours along one axis: inside a word by shifting it by whole bytes
    and masking, across words by adding other words, and across blocks by
    reading the neighbouring block ("fixups").  After X, Y and Z every
    counter holds the live cells of the 3x3x3 box around its cell; the
    cells outside the grid count as dead. */
module SeparableCount {
  import opened Words
  import opened Lattice
  import opened BlockDecompress

  // ------------------------------------------------------ byte lanes

  /** `w >> 8 * n`: byte `k` receives byte `k + n`. */
  function ShrBytes(w: Lanes, n: nat): (r: Lanes)
  {
    seq(8, k requires 0 <= k < 8 => if k + n < 8 then w[k + n] else 0)
  }

  /** `w << 8 * n`: byte `k` receives byte `k - n`. */
  function ShlBytes(w: Lanes, n: nat): (r: Lanes)
  {
    seq(8, k requires 0 <= k < 8 => if k >= n then w[k - n] else 0)
  }

  /** `w & mask` for a mask whose bytes are `0xFF` where `keep` holds and
      `0x00` elsewhere. */
  function MaskBytes(w: Lanes, keep: seq<bool>): (r: Lanes)
    requires |keep| == 8
  {
    seq(8, k requires 0 <= k < 8 => if keep[k] then w[k] else 0)
  }

  /** `a + b` on words none of whose bytes carries: bytewise addition.  The
      passes keep every byte at most 27, so no byte ever carries into the
      next and the `u64` addition of the engine is this one. */
  function AddBytes(a: Lanes, b: Lanes): (r: Lanes)
  {
    seq(8, k requires 0 <= k < 8 => a[k] + b[k])
  }

  /** `a | b` on words with no byte set in both: bytewise, each byte of the
      result is the one that is set. */
  function OrBytes(a: Lanes, b: Lanes): (r: Lanes)
    requires forall k :: 0 <= k < 8 ==> a[k] == 0 || b[k] == 0
  {
    seq(8, k requires 0 <= k < 8 => a[k] + b[k])
  }

  /** `0x00FF_FFFF_00FF_FFFF`: clears the `x = 3` column of both rows. */
  function KeepXm(): seq<bool> { seq(8, k => k % 4 != 3) }

  /** `0xFFFF_FF00_FFFF_FF00`: clears the `x = 0` column of both rows. */
  function KeepXp(): seq<bool> { seq(8, k => k % 4 != 0) }

  /** `0x0000_00FF_0000_00FF`: keeps only the `x = 0` column. */
  function FaceXm(): seq<bool> { seq(8, k => k % 4 == 0) }

  /** `0xFF00_0000_FF00_0000`: keeps only the `x = 3` column. */
  function FaceXp(): seq<bool> { seq(8, k => k % 4 == 3) }

  // ------------------------------------------------------ block geometry

  /** The number of block `(px, py, pz)`: X fastest, then Y, then Z. */
  function BlockIndex(cx: nat, cy: nat, px: nat, py: nat, pz: nat): nat
  {
    Mul(Mul(pz, cy) + py, cx) + px
  }

  function BlockCount(cx: nat, cy: nat, cz: nat): nat
  {
    Mul(Mul(cz, cy), cx)
  }

  predicate InBlocks(cx: nat, cy: nat, cz: nat, px: int, py: int, pz: int)
  {
    0 <= px < cx && 0 <= py < cy && 0 <= pz < cz
  }

  /** The counter of byte `k` of word `i` of block `(px, py, pz)`. */
  function Slot(cx: nat, cy: nat, px: nat, py: nat, pz: nat, i: nat, k: nat): nat
  {
    64 * BlockIndex(cx, cy, px, py, pz) + 8 * i + k
  }

  /** The cell of byte `k` of word `i` of block `(px, py, pz)`. */
  function CellX(px: nat, k: nat): int { 4 * px + k % 4 }
  function CellY(py: nat, i: nat, k: nat): int { 4 * py + 2 * (i % 2) + k / 4 }
  function CellZ(pz: nat, i: nat): int { 4 * pz + i / 2 }

  lemma BlockIndexBound(cx: nat, cy: nat, cz: nat, px: nat, py: nat, pz: nat)
    requires InBlocks(cx, cy, cz, px, py, pz)
    ensures BlockIndex(cx, cy, px, py, pz) < BlockCount(cx, cy, cz)
  {
    MulMono(pz + 1, cy, cz, cy);
    MulIsProduct(pz + 1, cy);
    MulIsProduct(pz, cy);
    MulMono(Mul(pz, cy) + py + 1, cx, Mul(cz, cy), cx);
    MulIsProduct(Mul(pz, cy) + py + 1, cx);
    MulIsProduct(Mul(pz, cy) + py, cx);
  }

  lemma BlockIndexInjective(cx: nat, cy: nat, cz: nat, px: nat, py: nat, pz: nat, px2: nat, py2: nat, pz2: nat)
    requires InBlocks(cx, cy, cz, px, py, pz) && InBlocks(cx, cy, cz, px2, py2, pz2)
    requires BlockIndex(cx, cy, px, py, pz) == BlockIndex(cx, cy, px2, py2, pz2)
    ensures px == px2 && py == py2 && pz == pz2
  {
    Index2Injective(cx, px, Mul(pz, cy) + py, px2, Mul(pz2, cy) + py2);
    Index2Injective(cy, py, pz, py2, pz2);
  }

  /** The neighbouring blocks along X, Y and Z are `1`, `cx` and `cx * cy`
      numbers away. */
  lemma BlockSteps(cx: nat, cy: nat, px: nat, py: nat, pz: nat)
    ensures BlockIndex(cx, cy, px + 1, py, pz) == BlockIndex(cx, cy, px, py, pz) + 1
    ensures BlockIndex(cx, cy, px, py + 1, pz) == BlockIndex(cx, cy, px, py, pz) + cx
    ensures BlockIndex(cx, cy, px, py, pz + 1) == BlockIndex(cx, cy, px, py, pz) + Mul(cx, cy)
  {
    assert Mul(pz + 1, cy) == Mul(pz, cy) + cy;
    MulAdd(Mul(pz, cy) + py, cy, cx);
    MulComm(cx, cy);
  }

  /** The block-position counter `bpos` of the passes: X advances, wrapping
      into Y, and Y wraps into Z; it follows the block numbers. */
  lemma NextBlock(cx: nat, cy: nat, cz: nat, px: nat, py: nat, pz: nat)
    requires InBlocks(cx, cy, cz, px, py, pz)
    requires BlockIndex(cx, cy, px, py, pz) + 1 < BlockCount(cx, cy, cz)
    ensures var (px2, py2, pz2) := if px + 1 < cx then (px + 1, py, pz)
        else if py + 1 < cy then (0, py + 1, pz) else (0, 0, pz + 1);
      && InBlocks(cx, cy, cz, px2, py2, pz2)
      && BlockIndex(cx, cy, px2, py2, pz2) == BlockIndex(cx, cy, px, py, pz) + 1
  {
    BlockSteps(cx, cy, px, py, pz);
    if px + 1 < cx {
    } else if py + 1 < cy {
      BlockSteps(cx, cy, 0, py, pz);
    } else {
      BlockSteps(cx, cy, 0, 0, pz);
      // The last block of a layer is followed by the first of the next.
      assert Mul(pz, cy) + py + 1 == Mul(pz + 1, cy);
      MulCancelLess(Mul(pz + 1, cy), Mul(cz, cy), cx);
      MulCancelLess(pz + 1, cz, cy);
    }
  }

  // ------------------------------------------------------ what the buffers hold

  /** `(x, y, z)` lies outside the grid of `cx * cy * cz` blocks. */
  predicate OffGrid(cx: nat, cy: nat, cz: nat, x: int, y: int, z: int)
  {
    !InGrid3(4 * cx, 4 * cy, 4 * cz, x, y, z)
  }

  /** No cell outside the grid is alive. */
  ghost predicate DeadOutside(alive: (int, int, int) -> bool, cx: nat, cy: nat, cz: nat)
  {
    forall x, y, z {:trigger OffGrid(cx, cy, cz, x, y, z)} :: OffGrid(cx, cy, cz, x, y, z) ==> !alive(x, y, z)
  }

  /** `src` is the bit blocks of the grid whose live cells are `alive`:
      one block per block position, bit `8 * i + k` of a block being the cell
      of byte `k` of word `i`, and no cell alive off the grid. */
  ghost predicate Encodes(src: seq<Word64>, cx: nat, cy: nat, cz: nat, alive: (int, int, int) -> bool)
  {
    && |src| == BlockCount(cx, cy, cz)
    && (forall px: nat, py: nat, pz: nat, i: nat, k: nat {:trigger Packed(src, Slot(cx, cy, px, py, pz, i, k))} ::
          InBlocks(cx, cy, cz, px, py, pz) && i < 8 && k < 8 ==>
            Packed(src, Slot(cx, cy, px, py, pz, i, k)) == alive(CellX(px, k), CellY(py, i, k), CellZ(pz, i)))
    && DeadOutside(alive, cx, cy, cz)
  }

  /** The counts a buffer holds: the cells themselves (the decompressed
      blocks), then after each pass the sum over a longer stretch around
      the cell, and in the end its Moore neighbours. */
  datatype Stage = Cells | Rows | Planes | Boxes | Neighbours

  function Expected(stage: Stage, alive: (int, int, int) -> bool, x: int, y: int, z: int): nat
  {
    match stage
    case Cells => B(alive(x, y, z))
    case Rows => Row3(alive, x, y, z)
    case Planes => Plane3(alive, x, y, z)
    case Boxes => Box3(alive, x, y, z)
    case Neighbours => Moore26(alive, x, y, z)
  }

  /** The counters of the first `n` blocks of `buf` hold `stage`. */
  ghost predicate Holds(buf: seq<nat>, cx: nat, cy: nat, cz: nat, alive: (int, int, int) -> bool, stage: Stage, n: nat)
  {
    && 64 * BlockCount(cx, cy, cz) <= |buf|
    && forall px: nat, py: nat, pz: nat, i: nat, k: nat {:trigger Slot(cx, cy, px, py, pz, i, k)} ::
         InBlocks(cx, cy, cz, px, py, pz) && BlockIndex(cx, cy, px, py, pz) < n && i < 8 && k < 8 ==>
           && Slot(cx, cy, px, py, pz, i, k) < |buf|
           && buf[Slot(cx, cy, px, py, pz, i, k)] == Expected(stage, alive, CellX(px, k), CellY(py, i, k), CellZ(pz, i))
  }

  /** Byte `m` of `w`, word `i` of block `(px, py, pz)`, holds `stage` for
      its cell. */
  ghost predicate WordHolds(w: Lanes, alive: (int, int, int) -> bool, stage: Stage, px: nat, py: nat, pz: nat, i: nat)
  {
    forall m {:trigger w[m]} :: 0 <= m < 8 ==> w[m] == Expected(stage, alive, CellX(px, m), CellY(py, i, m), CellZ(pz, i))
  }

  /** Every word of block `blk` at `(px, py, pz)` holds what `stage` expects. */
  ghost predicate BlockHolds(blk: seq<Lanes>, alive: (int, int, int) -> bool, stage: Stage, px: nat, py: nat, pz: nat)
  {
    |blk| == 8 && forall i :: 0 <= i < 8 ==> WordHolds(blk[i], alive, stage, px, py, pz, i)
  }

  /** The decompressed block of `(px, py, pz)` has, in byte `k` of word `i`,
      `1` for a live cell and `0` for a dead one. */
  lemma BlockLanes(src: seq<Word64>, cx: nat, cy: nat, cz: nat, alive: (int, int, int) -> bool, px: nat, py: nat, pz: nat, n: int)
    requires Encodes(src, cx, cy, cz, alive) && InBlocks(cx, cy, cz, px, py, pz) && n == BlockIndex(cx, cy, px, py, pz)
    ensures 0 <= n < |src|
    ensures forall i :: 0 <= i < 8 ==> WordHolds(Decompressed(src, n)[i], alive, Cells, px, py, pz, i)
  {
    BlockIndexBound(cx, cy, cz, px, py, pz);
    DecompressBytes(src[n]);
    forall i, k | 0 <= i < 8 && 0 <= k < 8
      ensures Decompressed(src, n)[i][k] == B(alive(CellX(px, k), CellY(py, i, k), CellZ(pz, i)))
    {
      var m := Slot(cx, cy, px, py, pz, i, k);
      assert m / 64 == n && m % 64 == 8 * i + k;
      assert Packed(src, m) == src[n][8 * i + k];
    }
  }

  /** Block `(0, 0, 0)`, where the passes start, is number `0`, and it exists
      when there is any block. */
  lemma FirstBlock(cx: nat, cy: nat, cz: nat)
    ensures BlockIndex(cx, cy, 0, 0, 0) == 0
    ensures BlockCount(cx, cy, cz) > 0 ==> InBlocks(cx, cy, cz, 0, 0, 0)
  {
    MulIsProduct(cz, cy);
    MulIsProduct(Mul(cz, cy), cx);
  }

  /** Writing the 64 counters of block number `n` extends what the first
      `n` blocks of a buffer hold to the first `n + 1`. */
  lemma HoldsNext(buf: seq<nat>, buf2: seq<nat>, cx: nat, cy: nat, cz: nat, alive: (int, int, int) -> bool, stage: Stage,
                  px: nat, py: nat, pz: nat, acc: seq<Lanes>)
    requires InBlocks(cx, cy, cz, px, py, pz)
    requires Holds(buf, cx, cy, cz, alive, stage, BlockIndex(cx, cy, px, py, pz))
    requires |buf2| == |buf| && |acc| == 8
    requires forall n :: 0 <= n < |buf| && n < 64 * BlockIndex(cx, cy, px, py, pz) ==> buf2[n] == buf[n]
    requires forall i, k {:trigger acc[i][k]} :: 0 <= i < 8 && 0 <= k < 8 ==>
      && 64 * BlockIndex(cx, cy, px, py, pz) + 8 * i + k < |buf2|
      && buf2[64 * BlockIndex(cx, cy, px, py, pz) + 8 * i + k] == acc[i][k]
      && acc[i][k] == Expected(stage, alive, CellX(px, k), CellY(py, i, k), CellZ(pz, i))
    ensures Holds(buf2, cx, cy, cz, alive, stage, BlockIndex(cx, cy, px, py, pz) + 1)
  {
    var ib := BlockIndex(cx, cy, px, py, pz);
    forall qx: nat, qy: nat, qz: nat, i: nat, k: nat |
      InBlocks(cx, cy, cz, qx, qy, qz) && BlockIndex(cx, cy, qx, qy, qz) < ib + 1 && i < 8 && k < 8
      ensures Slot(cx, cy, qx, qy, qz, i, k) < |buf2|
      ensures buf2[Slot(cx, cy, qx, qy, qz, i, k)] == Expected(stage, alive, CellX(qx, k), CellY(qy, i, k), CellZ(qz, i))
    {
      if BlockIndex(cx, cy, qx, qy, qz) == ib {
        BlockIndexInjective(cx, cy, cz, px, py, pz, qx, qy, qz);
        assert acc[i][k] == Expected(stage, alive, CellX(px, k), CellY(py, i, k), CellZ(pz, i));
      }
    }
  }

  // ------------------------------------------------------ acc_x

  /** Where the `x + 1` neighbour of byte `k` of word `i` sits: the next
      byte of the word, or the first byte of the row in the block to the
      right. */
  lemma XCellsNext(px: nat, py: nat, pz: nat, i: nat, k: nat)
    requires i < 8 && k < 8
    ensures k % 4 != 3 ==> CellX(px, k + 1) == CellX(px, k) + 1 && CellY(py, i, k + 1) == CellY(py, i, k)
    ensures k % 4 == 3 ==> k >= 3 && CellX(px + 1, k - 3) == CellX(px, k) + 1 && CellY(py, i, k - 3) == CellY(py, i, k)
    ensures k % 4 == 3 ==> CellX(px, k) + 1 == 4 * px + 4
  {
  }

  /** Where the `x - 1` neighbour of byte `k` of word `i` sits. */
  lemma XCellsPrev(px: nat, py: nat, pz: nat, i: nat, k: nat)
    requires i < 8 && k < 8
    ensures k % 4 != 0 ==> k >= 1 && CellX(px, k - 1) == CellX(px, k) - 1 && CellY(py, i, k - 1) == CellY(py, i, k)
    ensures k % 4 == 0 ==> CellY(py, i, k + 3) == CellY(py, i, k) && CellX(px, k) - 1 == 4 * px - 1
    ensures k % 4 == 0 && px > 0 ==> CellX(px - 1, k + 3) == CellX(px, k) - 1
  {
  }

  /** Where the `y + 1` neighbour of byte `k` of word `i` sits: four bytes
      on, the next word, or the block above in Y. */
  lemma YCellsNext(px: nat, py: nat, pz: nat, i: nat, k: nat)
    requires i < 8 && k < 8
    ensures k < 4 ==> CellX(px, k + 4) == CellX(px, k) && CellY(py, i, k + 4) == CellY(py, i, k) + 1
    ensures k >= 4 && i % 2 == 0 ==>
      && CellX(px, k - 4) == CellX(px, k) && CellY(py, i + 1, k - 4) == CellY(py, i, k) + 1
      && CellZ(pz, i + 1) == CellZ(pz, i)
    ensures k >= 4 && i % 2 == 1 ==>
      && CellX(px, k - 4) == CellX(px, k) && CellY(py + 1, i - 1, k - 4) == CellY(py, i, k) + 1
      && CellZ(pz, i - 1) == CellZ(pz, i) && CellY(py, i, k) + 1 == 4 * py + 4
  {
  }

  /** Where the `y - 1` neighbour of byte `k` of word `i` sits. */
  lemma YCellsPrev(px: nat, py: nat, pz: nat, i: nat, k: nat)
    requires i < 8 && k < 8
    ensures k >= 4 ==> CellX(px, k - 4) == CellX(px, k) && CellY(py, i, k - 4) == CellY(py, i, k) - 1
    ensures k < 4 && i % 2 == 1 ==>
      && CellX(px, k + 4) == CellX(px, k) && CellY(py, i - 1, k + 4) == CellY(py, i, k) - 1
      && CellZ(pz, i - 1) == CellZ(pz, i)
    ensures k < 4 && i % 2 == 0 ==>
      && CellX(px, k + 4) == CellX(px, k) && CellZ(pz, i + 1) == CellZ(pz, i)
      && CellY(py, i, k) - 1 == 4 * py - 1
    ensures k < 4 && i % 2 == 0 && py > 0 ==> CellY(py - 1, i + 1, k + 4) == CellY(py, i, k) - 1
  {
  }

  /** Where the `z + 1` neighbour of word `i` sits: two words on, or the
      block above in Z. */
  lemma ZCellsNext(px: nat, py: nat, pz: nat, i: nat, k: nat)
    requires i < 8 && k < 8
    ensures i < 6 ==> CellY(py, i + 2, k) == CellY(py, i, k) && CellZ(pz, i + 2) == CellZ(pz, i) + 1
    ensures i >= 6 ==>
      && CellY(py, i - 6, k) == CellY(py, i, k) && CellZ(pz + 1, i - 6) == CellZ(pz, i) + 1
      && CellZ(pz, i) + 1 == 4 * pz + 4
  {
  }

  /** Where the `z - 1` neighbour of word `i` sits. */
  lemma ZCellsPrev(px: nat, py: nat, pz: nat, i: nat, k: nat)
    requires i < 8 && k < 8
    ensures i >= 2 ==> CellY(py, i - 2, k) == CellY(py, i, k) && CellZ(pz, i - 2) == CellZ(pz, i) - 1
    ensures i < 2 ==> CellY(py, i + 6, k) == CellY(py, i, k) && CellZ(pz, i) - 1 == 4 * pz - 1
    ensures i < 2 && pz > 0 ==> CellZ(pz - 1, i + 6) == CellZ(pz, i) - 1
  {
  }

  /** The `x + 1` neighbour of a counter in the X pass: the next byte of
      the row, or across the face `x = 3` byte `k - 3` of the next block,
      or nothing at the edge of the grid, where no cell is alive. */
  lemma XNext(alive: (int, int, int) -> bool, cx: nat, cy: nat, cz: nat, px: nat, py: nat, pz: nat, i: nat, k: nat,
              here: Lanes, right: Lanes)
    requires DeadOutside(alive, cx, cy, cz)
    requires InBlocks(cx, cy, cz, px, py, pz) && i < 8 && k < 8
    requires WordHolds(here, alive, Cells, px, py, pz, i)
    requires px + 1 < cx ==> WordHolds(right, alive, Cells, px + 1, py, pz, i)
    ensures (if k % 4 != 3 then here[k + 1] else if px + 1 < cx then right[k - 3] else 0)
      == B(alive(CellX(px, k) + 1, CellY(py, i, k), CellZ(pz, i)))
  {
    var x, y, z := CellX(px, k), CellY(py, i, k), CellZ(pz, i);
    XCellsNext(px, py, pz, i, k);
    if k % 4 == 3 && px + 1 >= cx {
      assert OffGrid(cx, cy, cz, x + 1, y, z);
    }
  }

  /** The `x - 1` neighbour of a counter in the X pass. */
  lemma XPrev(alive: (int, int, int) -> bool, cx: nat, cy: nat, cz: nat, px: nat, py: nat, pz: nat, i: nat, k: nat,
              here: Lanes, left: Lanes)
    requires DeadOutside(alive, cx, cy, cz)
    requires InBlocks(cx, cy, cz, px, py, pz) && i < 8 && k < 8
    requires WordHolds(here, alive, Cells, px, py, pz, i)
    requires px > 0 ==> WordHolds(left, alive, Cells, px - 1, py, pz, i)
    ensures (if k % 4 != 0 then here[k - 1] else if px > 0 then left[k + 3] else 0)
      == B(alive(CellX(px, k) - 1, CellY(py, i, k), CellZ(pz, i)))
  {
    var x, y, z := CellX(px, k), CellY(py, i, k), CellZ(pz, i);
    XCellsPrev(px, py, pz, i, k);
    if k % 4 == 0 && px == 0 {
      assert OffGrid(cx, cy, cz, x - 1, y, z);
    }
  }

  /** The decompressed block number `n`, or a block of zeros when there is
      no such block. */
  function Decompressed(src: seq<Word64>, n: int): (r: seq<Lanes>)
    ensures |r| == 8
  {
    if 0 <= n < |src| then DecompressLanes(src[n]) else seq(8, _ => [0, 0, 0, 0, 0, 0, 0, 0])
  }

  /** Every byte of a decompressed block is `0` or `1`. */
  lemma DecompressedBits(w: Word64)
    ensures forall i, k {:trigger DecompressLanes(w)[i][k]} :: 0 <= i < 8 && 0 <= k < 8 ==> DecompressLanes(w)[i][k] <= 1
  {
    DecompressBytes(w);
  }

  /** A word after the X pass: each byte plus the next and the previous
      byte of its row of four, and across the faces `x = 3` and `x = 0` the
      facing byte of the next or previous block when there is one. */
  function XWord(here: Lanes, left: Lanes, right: Lanes, hasLeft: bool, hasRight: bool): Lanes
  {
    seq(8, k requires 0 <= k < 8 =>
      here[k]
        + (if k % 4 != 3 then here[k + 1] else if hasRight then right[k - 3] else 0)
        + (if k % 4 != 0 then here[k - 1] else if hasLeft then left[k + 3] else 0))
  }

  /** A word after the in-block step of the X pass: each byte plus the
      next and the previous byte of its row of four. */
  function XInner(w: Lanes): Lanes
  {
    seq(8, k requires 0 <= k < 8 =>
      w[k] + (if k % 4 != 3 then w[k + 1] else 0) + (if k % 4 != 0 then w[k - 1] else 0))
  }

  lemma XInnerWord(w: Lanes)
    ensures AddBytes(w, AddBytes(MaskBytes(ShrBytes(w, 1), KeepXm()), MaskBytes(ShlBytes(w, 1), KeepXp()))) == XInner(w)
  {
  }

  /** The `x = 3` column of the previous block moved to the `x = 0` column. */
  function FromLeft(w: Lanes): Lanes
  {
    seq(8, k requires 0 <= k < 8 => if k % 4 == 0 then w[k + 3] else 0)
  }

  lemma FromLeftWord(w: Lanes)
    ensures MaskBytes(ShrBytes(w, 3), FaceXm()) == FromLeft(w)
  {
  }

  /** The `x = 0` column of the next block moved to the `x = 3` column. */
  function FromRight(w: Lanes): Lanes
  {
    seq(8, k requires 0 <= k < 8 => if k % 4 == 3 then w[k - 3] else 0)
  }

  lemma FromRightWord(w: Lanes)
    ensures MaskBytes(ShlBytes(w, 3), FaceXp()) == FromRight(w)
  {
  }

  /** The in-block step followed by the fixups makes `XWord`. */
  lemma XSteps(here: Lanes, left: Lanes, right: Lanes, hasLeft: bool, hasRight: bool)
    ensures var m := if hasLeft then AddBytes(XInner(here), FromLeft(left)) else XInner(here);
      XWord(here, left, right, hasLeft, hasRight) == if hasRight then AddBytes(m, FromRight(right)) else m
  {
    var m := if hasLeft then AddBytes(XInner(here), FromLeft(left)) else XInner(here);
    var r := if hasRight then AddBytes(m, FromRight(right)) else m;
    forall k | 0 <= k < 8
      ensures XWord(here, left, right, hasLeft, hasRight)[k] == r[k]
    {
      assert k % 4 == 3 ==> k >= 3;
    }
  }

  /** The in-block step of `acc_x`: every word gets the next and the
      previous byte of each row added. */
  method XRows(b: seq<Lanes>) returns (acc: seq<Lanes>)
    requires |b| == 8
    ensures |acc| == 8 && forall i :: 0 <= i < 8 ==> acc[i] == XInner(b[i])
  {
    acc := b;
    for i := 0 to 8
      invariant |acc| == 8
      invariant forall j :: 0 <= j < i ==> acc[j] == XInner(b[j])
      invariant forall j :: i <= j < 8 ==> acc[j] == b[j]
    {
      // The next byte of the row, shifted down a byte, the `x = 3` column cleared.
      var xm := MaskBytes(ShrBytes(b[i], 1), KeepXm());
      // The previous byte of the row, shifted up a byte, the `x = 0` column cleared.
      var xp := MaskBytes(ShlBytes(b[i], 1), KeepXp());
      XInnerWord(b[i]);
      acc := acc[i := AddBytes(acc[i], AddBytes(xm, xp))];
    }
  }

  /** The fixup from the block before along X: its `x = 3` column is
      moved to `x = 0` and added. */
  method XFromLeft(acc0: seq<Lanes>, left: seq<Lanes>) returns (acc: seq<Lanes>)
    requires |acc0| == 8 && |left| == 8
    ensures |acc| == 8 && forall i :: 0 <= i < 8 ==> acc[i] == AddBytes(acc0[i], FromLeft(left[i]))
  {
    acc := acc0;
    var xm := left;
    for i := 0 to 8
      invariant |acc| == 8 && |xm| == 8
      invariant forall j :: 0 <= j < i ==> xm[j] == FromLeft(left[j]) && acc[j] == AddBytes(acc0[j], xm[j])
      invariant forall j :: i <= j < 8 ==> xm[j] == left[j] && acc[j] == acc0[j]
    {
      FromLeftWord(xm[i]);
      xm := xm[i := MaskBytes(ShrBytes(xm[i], 3), FaceXm())];
      acc := acc[i := AddBytes(acc[i], xm[i])];
    }
  }

  /** The fixup from the block after along X: its `x = 0` column is moved
      to `x = 3` and added. */
  method XFromRight(acc0: seq<Lanes>, right: seq<Lanes>) returns (acc: seq<Lanes>)
    requires |acc0| == 8 && |right| == 8
    ensures |acc| == 8 && forall i :: 0 <= i < 8 ==> acc[i] == AddBytes(acc0[i], FromRight(right[i]))
  {
    acc := acc0;
    var xp := right;
    for i := 0 to 8
      invariant |acc| == 8 && |xp| == 8
      invariant forall j :: 0 <= j < i ==> xp[j] == FromRight(right[j]) && acc[j] == AddBytes(acc0[j], xp[j])
      invariant forall j :: i <= j < 8 ==> xp[j] == right[j] && acc[j] == acc0[j]
    {
      FromRightWord(xp[i]);
      xp := xp[i := MaskBytes(ShlBytes(xp[i], 3), FaceXp())];
      acc := acc[i := AddBytes(acc[i], xp[i])];
    }
  }

  /** The arithmetic of the block loop of `acc_x`: the counters of block
      number `ib`, at X position `px`, after the X pass. */
  method XBlock(src: seq<Word64>, cx: nat, ib: nat, px: nat) returns (acc: seq<Lanes>)
    requires ib < |src| && px < cx
    requires px > 0 ==> ib >= 1
    requires px + 1 < cx ==> ib + 1 < |src|
    ensures |acc| == 8
    ensures forall i :: 0 <= i < 8 ==>
      acc[i] == XWord(Decompressed(src, ib)[i], Decompressed(src, ib - 1)[i], Decompressed(src, ib + 1)[i], px > 0, px + 1 < cx)
  {
    var b := DecompressLanes(src[ib]);
    acc := XRows(b);
    ghost var left := Decompressed(src, ib - 1);
    if px > 0 {
      acc := XFromLeft(acc, DecompressLanes(src[ib - 1]));
    }
    ghost var right := Decompressed(src, ib + 1);
    if px + 1 < cx {
      acc := XFromRight(acc, DecompressLanes(src[ib + 1]));
    }
    forall i | 0 <= i < 8
      ensures acc[i] == XWord(b[i], left[i], right[i], px > 0, px + 1 < cx)
    {
      XSteps(b[i], left[i], right[i], px > 0, px + 1 < cx);
    }
  }

  /** One counter after the X pass holds the live cells of the row of
      three around its cell. */
  lemma XLaneRow(alive: (int, int, int) -> bool, cx: nat, cy: nat, cz: nat, px: nat, py: nat, pz: nat, i: nat, k: nat,
                 here: Lanes, left: Lanes, right: Lanes)
    requires DeadOutside(alive, cx, cy, cz)
    requires InBlocks(cx, cy, cz, px, py, pz) && i < 8 && k < 8
    requires WordHolds(here, alive, Cells, px, py, pz, i)
    requires px > 0 ==> WordHolds(left, alive, Cells, px - 1, py, pz, i)
    requires px + 1 < cx ==> WordHolds(right, alive, Cells, px + 1, py, pz, i)
    ensures XWord(here, left, right, px > 0, px + 1 < cx)[k] == Row3(alive, CellX(px, k), CellY(py, i, k), CellZ(pz, i))
  {
    XNext(alive, cx, cy, cz, px, py, pz, i, k, here, right);
    XPrev(alive, cx, cy, cz, px, py, pz, i, k, here, left);
  }

  /** The block before along X is the block one number before. */
  lemma LeftIndex(cx: nat, cy: nat, px: nat, py: nat, pz: nat)
    requires px > 0
    ensures BlockIndex(cx, cy, px, py, pz) - 1 == BlockIndex(cx, cy, px - 1, py, pz)
  {
    BlockSteps(cx, cy, px - 1, py, pz);
  }

  /** The cells of the block before along X, once its number is known. */
  lemma LayerLeftLanes(src: seq<Word64>, cx: nat, cy: nat, cz: nat, alive: (int, int, int) -> bool, px: nat, py: nat, pz: nat, n: int)
    requires Encodes(src, cx, cy, cz, alive) && InBlocks(cx, cy, cz, px, py, pz)
    requires px > 0 && n == BlockIndex(cx, cy, px - 1, py, pz)
    ensures forall i :: 0 <= i < 8 ==> WordHolds(Decompressed(src, n)[i], alive, Cells, px - 1, py, pz, i)
  {
    var qx: nat := px - 1;
    assert InBlocks(cx, cy, cz, qx, py, pz);
    BlockLanes(src, cx, cy, cz, alive, qx, py, pz, n);
  }

  /** The cells of the block before along X. */
  lemma LeftLanes(src: seq<Word64>, cx: nat, cy: nat, cz: nat, alive: (int, int, int) -> bool, px: nat, py: nat, pz: nat, n: int)
    requires Encodes(src, cx, cy, cz, alive) && InBlocks(cx, cy, cz, px, py, pz)
    requires px > 0 && n == BlockIndex(cx, cy, px, py, pz) - 1
    ensures forall i :: 0 <= i < 8 ==> WordHolds(Decompressed(src, n)[i], alive, Cells, px - 1, py, pz, i)
  {
    LeftIndex(cx, cy, px, py, pz);
    LayerLeftLanes(src, cx, cy, cz, alive, px, py, pz, n);
  }

  /** The cells of the block after along X, once its number is known. */
  lemma LayerRightLanes(src: seq<Word64>, cx: nat, cy: nat, cz: nat, alive: (int, int, int) -> bool, px: nat, py: nat, pz: nat, n: int)
    requires Encodes(src, cx, cy, cz, alive) && InBlocks(cx, cy, cz, px, py, pz)
    requires px + 1 < cx && n == BlockIndex(cx, cy, px + 1, py, pz)
    ensures forall i :: 0 <= i < 8 ==> WordHolds(Decompressed(src, n)[i], alive, Cells, px + 1, py, pz, i)
  {
    BlockLanes(src, cx, cy, cz, alive, px + 1, py, pz, n);
  }

  /** The cells of the block after along X. */
  lemma RightLanes(src: seq<Word64>, cx: nat, cy: nat, cz: nat, alive: (int, int, int) -> bool, px: nat, py: nat, pz: nat, n: int)
    requires Encodes(src, cx, cy, cz, alive) && InBlocks(cx, cy, cz, px, py, pz)
    requires px + 1 < cx && n == BlockIndex(cx, cy, px, py, pz) + 1
    ensures forall i :: 0 <= i < 8 ==> WordHolds(Decompressed(src, n)[i], alive, Cells, px + 1, py, pz, i)
  {
    BlockSteps(cx, cy, px, py, pz);
    LayerRightLanes(src, cx, cy, cz, alive, px, py, pz, n);
  }

  /** After the X pass every counter of a block holds the live cells of the
      row of three around its cell. */
  lemma XWordRows(alive: (int, int, int) -> bool, cx: nat, cy: nat, cz: nat, px: nat, py: nat, pz: nat,
                  here: seq<Lanes>, left: seq<Lanes>, right: seq<Lanes>, hasLeft: bool, hasRight: bool)
    requires hasLeft == (px > 0) && hasRight == (px + 1 < cx)
    requires DeadOutside(alive, cx, cy, cz)
    requires InBlocks(cx, cy, cz, px, py, pz) && |here| == 8 && |left| == 8 && |right| == 8
    requires forall j :: 0 <= j < 8 ==> WordHolds(here[j], alive, Cells, px, py, pz, j)
    requires px > 0 ==> forall j :: 0 <= j < 8 ==> WordHolds(left[j], alive, Cells, px - 1, py, pz, j)
    requires px + 1 < cx ==> forall j :: 0 <= j < 8 ==> WordHolds(right[j], alive, Cells, px + 1, py, pz, j)
    ensures forall i, k :: 0 <= i < 8 && 0 <= k < 8 ==>
      XWord(here[i], left[i], right[i], hasLeft, hasRight)[k] == Row3(alive, CellX(px, k), CellY(py, i, k), CellZ(pz, i))
  {
    forall i, k | 0 <= i < 8 && 0 <= k < 8
      ensures XWord(here[i], left[i], right[i], hasLeft, hasRight)[k] == Row3(alive, CellX(px, k), CellY(py, i, k), CellZ(pz, i))
    {
      XLaneRow(alive, cx, cy, cz, px, py, pz, i, k, here[i], left[i], right[i]);
    }
  }

  /** Counters equal to the words of the X pass hold the rows of three. */
  lemma XAccRows(alive: (int, int, int) -> bool, px: nat, py: nat, pz: nat, acc: seq<Lanes>,
                 here: seq<Lanes>, left: seq<Lanes>, right: seq<Lanes>, hasLeft: bool, hasRight: bool)
    requires |here| == 8 && |left| == 8 && |right| == 8
    requires |acc| == 8 && forall i :: 0 <= i < 8 ==> acc[i] == XWord(here[i], left[i], right[i], hasLeft, hasRight)
    requires forall i, k :: 0 <= i < 8 && 0 <= k < 8 ==>
      XWord(here[i], left[i], right[i], hasLeft, hasRight)[k] == Row3(alive, CellX(px, k), CellY(py, i, k), CellZ(pz, i))
    ensures forall i, k {:trigger acc[i][k]} :: 0 <= i < 8 && 0 <= k < 8 ==>
      acc[i][k] == Expected(Rows, alive, CellX(px, k), CellY(py, i, k), CellZ(pz, i))
  {
    forall i, k | 0 <= i < 8 && 0 <= k < 8
      ensures acc[i][k] == Expected(Rows, alive, CellX(px, k), CellY(py, i, k), CellZ(pz, i))
    {
      assert acc[i] == XWord(here[i], left[i], right[i], hasLeft, hasRight);
    }
  }

  /** The counters of block number `ib`, at `(px, py, pz)`, after the X
      pass: the row of three around each cell. */
  method XCounts(src: seq<Word64>, cx: nat, cy: nat, cz: nat, ib: nat, px: nat, py: nat, pz: nat,
                 ghost alive: (int, int, int) -> bool) returns (acc: seq<Lanes>)
    requires Encodes(src, cx, cy, cz, alive)
    requires InBlocks(cx, cy, cz, px, py, pz) && ib == BlockIndex(cx, cy, px, py, pz)
    ensures |acc| == 8
    ensures forall i, k {:trigger acc[i][k]} :: 0 <= i < 8 && 0 <= k < 8 ==>
      acc[i][k] == Expected(Rows, alive, CellX(px, k), CellY(py, i, k), CellZ(pz, i))
  {
    BlockIndexBound(cx, cy, cz, px, py, pz);
    BlockSteps(cx, cy, px, py, pz);
    if px + 1 < cx {
      BlockIndexBound(cx, cy, cz, px + 1, py, pz);
    }
    acc := XBlock(src, cx, ib, px);
    BlockLanes(src, cx, cy, cz, alive, px, py, pz, ib);
    if px > 0 {
      LeftLanes(src, cx, cy, cz, alive, px, py, pz, ib - 1);
    }
    if px + 1 < cx {
      RightLanes(src, cx, cy, cz, alive, px, py, pz, ib + 1);
    }
    XWordRows(alive, cx, cy, cz, px, py, pz, Decompressed(src, ib), Decompressed(src, ib - 1), Decompressed(src, ib + 1),
              px > 0, px + 1 < cx);
    XAccRows(alive, px, py, pz, acc, Decompressed(src, ib), Decompressed(src, ib - 1), Decompressed(src, ib + 1),
             px > 0, px + 1 < cx);
  }

  /** `counts[ic..ic + 64].copy_from_slice(&acc)` for block number `ic / 64`
      at `(px, py, pz)`: byte `k` of word `i` goes to `counts[ic + 8 * i + k]`.
      When these are the counts of `stage` for the block, the first
      `ic / 64 + 1` blocks of `counts` hold `stage`. */
  method StoreBlock(counts: array<nat>, ic: nat, acc: seq<Lanes>, cx: nat, cy: nat, cz: nat, px: nat, py: nat, pz: nat,
                    ghost alive: (int, int, int) -> bool, ghost stage: Stage)
    requires |acc| == 8 && ic + 64 <= counts.Length
    requires InBlocks(cx, cy, cz, px, py, pz) && ic == 64 * BlockIndex(cx, cy, px, py, pz)
    requires Holds(counts[..], cx, cy, cz, alive, stage, ic / 64)
    requires forall i, k {:trigger acc[i][k]} :: 0 <= i < 8 && 0 <= k < 8 ==>
      acc[i][k] == Expected(stage, alive, CellX(px, k), CellY(py, i, k), CellZ(pz, i))
    modifies counts
    ensures Holds(counts[..], cx, cy, cz, alive, stage, ic / 64 + 1)
    ensures forall n :: 0 <= n < counts.Length && !(ic <= n < ic + 64) ==> counts[n] == old(counts[n])
  {
    ghost var before := counts[..];
    forall i, k | 0 <= i < 8 && 0 <= k < 8 {
      counts[ic + 8 * i + k] := acc[i][k];
    }
    HoldsNext(before, counts[..], cx, cy, cz, alive, stage, px, py, pz, acc);
  }

  /** The body of the block loop of `acc_x`: block number `ib`, at
      position `(px, py, pz)`, gets its counters after the X pass. */
  method AccXBlock(src: seq<Word64>, counts: array<nat>, cx: nat, cy: nat, cz: nat, ib: nat, px: nat, py: nat, pz: nat,
                   ghost alive: (int, int, int) -> bool)
    requires Encodes(src, cx, cy, cz, alive) && 64 * |src| <= counts.Length
    requires InBlocks(cx, cy, cz, px, py, pz) && ib == BlockIndex(cx, cy, px, py, pz)
    requires Holds(counts[..], cx, cy, cz, alive, Rows, ib)
    modifies counts
    ensures Holds(counts[..], cx, cy, cz, alive, Rows, ib + 1)
    ensures forall n :: 0 <= n < counts.Length && !(64 * ib <= n < 64 * ib + 64) ==> counts[n] == old(counts[n])
  {
    BlockIndexBound(cx, cy, cz, px, py, pz);
    var acc := XCounts(src, cx, cy, cz, ib, px, py, pz, alive);
    StoreBlock(counts, 64 * ib, acc, cx, cy, cz, px, py, pz, alive, Rows);
  }

  /** `acc_x`: the X pass over the blocks of `src`, block after block, the
      position `(px, py, pz)` of block `ib` advancing X first, then Y, then
      Z.  Afterwards every counter of `counts` holds the live cells of the
      row of three around its cell; the rest of `counts` is untouched. */
  method AccX(src: seq<Word64>, counts: array<nat>, cx: nat, cy: nat, cz: nat, ghost alive: (int, int, int) -> bool)
    requires Encodes(src, cx, cy, cz, alive)
    requires 64 * |src| <= counts.Length
    modifies counts
    ensures Holds(counts[..], cx, cy, cz, alive, Rows, |src|)
    ensures forall n :: 64 * |src| <= n < counts.Length ==> counts[n] == old(counts[n])
  {
    FirstBlock(cx, cy, cz);
    var px, py, pz := 0, 0, 0;
    var ic := 0;
    for ib := 0 to |src|
      invariant ic == 64 * ib
      invariant ib < |src| ==> InBlocks(cx, cy, cz, px, py, pz) && BlockIndex(cx, cy, px, py, pz) == ib
      invariant Holds(counts[..], cx, cy, cz, alive, Rows, ib)
      invariant forall n :: 64 * ib <= n < counts.Length ==> counts[n] == old(counts[n])
    {
      AccXBlock(src, counts, cx, cy, cz, ib, px, py, pz, alive);
      ic := ic + 64;
      if ib + 1 < |src| {
        NextBlock(cx, cy, cz, px, py, pz);
      }
      px := px + 1;
      if px >= cx {
        px := 0;
        py := py + 1;
        if py >= cy {
          py := 0;
          pz := pz + 1;
        }
      }
    }
  }

  // ------------------------------------------------------ acc_y

  /** Block number `n` of a byte buffer seen as words of eight bytes
      (`bytemuck::cast_slice`): byte `k` of word `i` is `buf[64 * n + 8 * i + k]`
      (`BlockAtLane`); a block of zeros when there is no such block. */
  function BlockAt(buf: seq<nat>, n: int): (r: seq<Lanes>)
    ensures |r| == 8
  {
    if 0 <= n && 64 * n + 64 <= |buf| then WordsAt(buf, 64 * n, 8)
    else seq(8, _ => [0, 0, 0, 0, 0, 0, 0, 0])
  }

  /** The `count` words of eight bytes from `buf[start]` on. */
  function WordsAt(buf: seq<nat>, start: nat, count: nat): (r: seq<Lanes>)
    requires start + 8 * count <= |buf|
    ensures |r| == count
  {
    if count == 0 then [] else WordsAt(buf, start, count - 1) + [buf[start + 8 * (count - 1) .. start + 8 * count]]
  }

  /** Byte `k` of word `i` of `WordsAt(buf, start, count)` is `buf[start + 8 * i + k]`. */
  lemma {:induction false} WordsAtLane(buf: seq<nat>, start: nat, count: nat, i: nat, k: nat)
    requires start + 8 * count <= |buf| && i < count && k < 8
    ensures WordsAt(buf, start, count)[i][k] == buf[start + 8 * i + k]
  {
    if i < count - 1 {
      WordsAtLane(buf, start, count - 1, i, k);
    }
  }

  /** When all the blocks of `buf` hold `stage`, so do the words of each
      block. */
  lemma BlockAtHolds(buf: seq<nat>, cx: nat, cy: nat, cz: nat, alive: (int, int, int) -> bool, stage: Stage,
                     px: nat, py: nat, pz: nat, n: int)
    requires Holds(buf, cx, cy, cz, alive, stage, BlockCount(cx, cy, cz)) && InBlocks(cx, cy, cz, px, py, pz)
    requires n == BlockIndex(cx, cy, px, py, pz)
    ensures forall i :: 0 <= i < 8 ==> WordHolds(BlockAt(buf, n)[i], alive, stage, px, py, pz, i)
  {
    BlockIndexBound(cx, cy, cz, px, py, pz);
    forall i, k | 0 <= i < 8 && 0 <= k < 8
      ensures BlockAt(buf, n)[i][k] == Expected(stage, alive, CellX(px, k), CellY(py, i, k), CellZ(pz, i))
    {
      BlockAtLane(buf, n, i, k);
      assert Slot(cx, cy, px, py, pz, i, k) == 64 * n + 8 * i + k;
    }
  }

  /** Byte `k` of word `i` of the block at `n` is counter `64 * n + 8 * i + k`. */
  lemma BlockAtLane(buf: seq<nat>, n: nat, i: nat, k: nat)
    requires 64 * n + 64 <= |buf| && i < 8 && k < 8
    ensures BlockAt(buf, n)[i][k] == buf[64 * n + 8 * i + k]
  {
    WordsAtLane(buf, 64 * n, 8, i, k);
  }

  /** A word after the Y pass: each byte plus the bytes of the rows
      `y + 1` and `y - 1` of its column.  A word holds two rows (`k / 4`);
      the other row of the pair is in the other word of the pair (`i ^ 1`),
      and across the faces `y = 3` and `y = 0` in the word of the next or
      previous block along Y, when there is one. */
  function YWord(b: seq<Lanes>, down: seq<Lanes>, up: seq<Lanes>, hasDown: bool, hasUp: bool, i: nat): Lanes
    requires |b| == 8 && |down| == 8 && |up| == 8 && i < 8
  {
    seq(8, k requires 0 <= k < 8 => b[i][k] + UpLane(b, up, hasUp, i, k) + DownLane(b, down, hasDown, i, k))
  }

  /** The lane that holds the row of three at `y + 1` of lane `k` of word
      `i`: in the same block, or in the block `up` above in Y when there
      is one. */
  function UpLane(b: seq<Lanes>, up: seq<Lanes>, hasUp: bool, i: nat, k: nat): nat
    requires |b| == 8 && |up| == 8 && i < 8 && k < 8
  {
    if k < 4 then b[i][k + 4] else if i % 2 == 0 then b[i + 1][k - 4] else if hasUp then up[i - 1][k - 4] else 0
  }

  /** The lane that holds the row of three at `y - 1` of lane `k` of word
      `i`. */
  function DownLane(b: seq<Lanes>, down: seq<Lanes>, hasDown: bool, i: nat, k: nat): nat
    requires |b| == 8 && |down| == 8 && i < 8 && k < 8
  {
    if k >= 4 then b[i][k - 4] else if i % 2 == 1 then b[i - 1][k + 4] else if hasDown then down[i + 1][k + 4] else 0
  }

  /** Word `i` after the in-block step of the Y pass. */
  function YInner(b: seq<Lanes>, i: nat): Lanes
    requires |b| == 8 && i < 8
  {
    seq(8, k requires 0 <= k < 8 =>
      b[i][k]
        + (if k < 4 then b[i][k + 4] else if i % 2 == 0 then b[i + 1][k - 4] else 0)
        + (if k >= 4 then b[i][k - 4] else if i % 2 == 1 then b[i - 1][k + 4] else 0))
  }

  /** The shifts and ORs of the in-block step make `YInner`: `ym` brings
      the row `y + 1` down by four bytes, `yp` the row `y - 1` up. */
  lemma YInnerWord(b: seq<Lanes>, i: nat)
    requires |b| == 8 && i < 8
    ensures i % 2 == 0 ==>
      AddBytes(b[i], AddBytes(OrBytes(ShrBytes(b[i], 4), ShlBytes(b[i + 1], 4)), ShlBytes(b[i], 4))) == YInner(b, i)
    ensures i % 2 == 1 ==>
      AddBytes(b[i], AddBytes(ShrBytes(b[i], 4), OrBytes(ShlBytes(b[i], 4), ShrBytes(b[i - 1], 4)))) == YInner(b, i)
  {
  }

  /** The in-block step of `acc_y`. */
  method YRows(b: seq<Lanes>) returns (acc: seq<Lanes>)
    requires |b| == 8
    ensures |acc| == 8 && forall i :: 0 <= i < 8 ==> acc[i] == YInner(b, i)
  {
    acc := b;
    for i := 0 to 8
      invariant |acc| == 8
      invariant forall j :: 0 <= j < i ==> acc[j] == YInner(b, j)
      invariant forall j :: i <= j < 8 ==> acc[j] == b[j]
    {
      // The row `y + 1`: the high half of the word, and for the low word of a
      // pair the low half of the high word.
      var ym := ShrBytes(b[i], 4);
      if i % 2 == 0 {
        ym := OrBytes(ym, ShlBytes(b[i + 1], 4));
      }
      // The row `y - 1`: the low half of the word, and for the high word of a
      // pair the high half of the low word.
      var yp := ShlBytes(b[i], 4);
      if i % 2 != 0 {
        yp := OrBytes(yp, ShrBytes(b[i - 1], 4));
      }
      YInnerWord(b, i);
      acc := acc[i := AddBytes(acc[i], AddBytes(ym, yp))];
    }
  }

  /** The fixup from the block before along Y: the high half of each high
      word of a pair (its row `y = 3`) is added to the low half of the low
      word (row `y = 0`). */
  method YFromDown(acc0: seq<Lanes>, down: seq<Lanes>) returns (acc: seq<Lanes>)
    requires |acc0| == 8 && |down| == 8
    ensures |acc| == 8
    ensures forall i :: 0 <= i < 8 ==> acc[i] == if i % 2 == 0 then AddBytes(acc0[i], ShrBytes(down[i + 1], 4)) else acc0[i]
  {
    acc := acc0;
    for i := 0 to 4
      invariant |acc| == 8
      invariant forall j :: 0 <= j < 8 ==>
        acc[j] == if j % 2 == 0 && j < 2 * i then AddBytes(acc0[j], ShrBytes(down[j + 1], 4)) else acc0[j]
    {
      acc := acc[2 * i := AddBytes(acc[2 * i], ShrBytes(down[2 * i + 1], 4))];
    }
  }

  /** The fixup from the block after along Y: the low half of each low word
      of a pair (its row `y = 0`) is added to the high half of the high word
      (row `y = 3`). */
  method YFromUp(acc0: seq<Lanes>, up: seq<Lanes>) returns (acc: seq<Lanes>)
    requires |acc0| == 8 && |up| == 8
    ensures |acc| == 8
    ensures forall i :: 0 <= i < 8 ==> acc[i] == if i % 2 == 1 then AddBytes(acc0[i], ShlBytes(up[i - 1], 4)) else acc0[i]
  {
    acc := acc0;
    for i := 0 to 4
      invariant |acc| == 8
      invariant forall j :: 0 <= j < 8 ==>
        acc[j] == if j % 2 == 1 && j < 2 * i then AddBytes(acc0[j], ShlBytes(up[j - 1], 4)) else acc0[j]
    {
      acc := acc[2 * i + 1 := AddBytes(acc[2 * i + 1], ShlBytes(up[2 * i], 4))];
    }
  }

  /** The in-block step followed by the fixups makes `YWord`. */
  lemma YSteps(b: seq<Lanes>, down: seq<Lanes>, up: seq<Lanes>, hasDown: bool, hasUp: bool, i: nat)
    requires |b| == 8 && |down| == 8 && |up| == 8 && i < 8
    ensures var m := if hasDown && i % 2 == 0 then AddBytes(YInner(b, i), ShrBytes(down[i + 1], 4)) else YInner(b, i);
      YWord(b, down, up, hasDown, hasUp, i) == if hasUp && i % 2 == 1 then AddBytes(m, ShlBytes(up[i - 1], 4)) else m
  {
    var m := if hasDown && i % 2 == 0 then AddBytes(YInner(b, i), ShrBytes(down[i + 1], 4)) else YInner(b, i);
    var r := if hasUp && i % 2 == 1 then AddBytes(m, ShlBytes(up[i - 1], 4)) else m;
    forall k | 0 <= k < 8
      ensures YWord(b, down, up, hasDown, hasUp, i)[k] == r[k]
    {
    }
  }

  /** The arithmetic of the block loop of `acc_y`: the counters of block
      number `ib`, at Y position `py`, after the Y pass. */
  method YBlock(src: seq<nat>, cx: nat, cy: nat, ib: nat, py: nat) returns (acc: seq<Lanes>)
    requires 64 * ib + 64 <= |src| && py < cy
    requires py > 0 ==> ib >= cx
    requires py + 1 < cy ==> 64 * (ib + cx) + 64 <= |src|
    ensures |acc| == 8
    ensures forall i :: 0 <= i < 8 ==>
      acc[i] == YWord(BlockAt(src, ib), BlockAt(src, ib - cx), BlockAt(src, ib + cx), py > 0, py + 1 < cy, i)
  {
    var b := BlockAt(src, ib);
    acc := YRows(b);
    ghost var down := BlockAt(src, ib - cx);
    if py > 0 {
      acc := YFromDown(acc, BlockAt(src, ib - cx));
    }
    ghost var up := BlockAt(src, ib + cx);
    if py + 1 < cy {
      acc := YFromUp(acc, BlockAt(src, ib + cx));
    }
    forall i | 0 <= i < 8
      ensures acc[i] == YWord(b, down, up, py > 0, py + 1 < cy, i)
    {
      YSteps(b, down, up, py > 0, py + 1 < cy, i);
    }
  }

  /** The `y + 1` neighbour of a counter in the Y pass holds the row of
      three at `y + 1`, or nothing at the edge of the grid. */
  lemma YNext(alive: (int, int, int) -> bool, cx: nat, cy: nat, cz: nat, px: nat, py: nat, pz: nat, i: nat, k: nat,
              b: seq<Lanes>, up: seq<Lanes>)
    requires DeadOutside(alive, cx, cy, cz)
    requires InBlocks(cx, cy, cz, px, py, pz) && i < 8 && k < 8 && |b| == 8 && |up| == 8
    requires forall j :: 0 <= j < 8 ==> WordHolds(b[j], alive, Rows, px, py, pz, j)
    requires py + 1 < cy ==> forall j :: 0 <= j < 8 ==> WordHolds(up[j], alive, Rows, px, py + 1, pz, j)
    ensures UpLane(b, up, py + 1 < cy, i, k) == Row3(alive, CellX(px, k), CellY(py, i, k) + 1, CellZ(pz, i))
  {
    var x, y, z := CellX(px, k), CellY(py, i, k), CellZ(pz, i);
    YCellsNext(px, py, pz, i, k);
    if k >= 4 && i % 2 == 1 && py + 1 >= cy {
      assert OffGrid(cx, cy, cz, x - 1, y + 1, z) && OffGrid(cx, cy, cz, x, y + 1, z) && OffGrid(cx, cy, cz, x + 1, y + 1, z);
    }
  }

  /** The `y - 1` neighbour of a counter in the Y pass. */
  lemma YPrev(alive: (int, int, int) -> bool, cx: nat, cy: nat, cz: nat, px: nat, py: nat, pz: nat, i: nat, k: nat,
              b: seq<Lanes>, down: seq<Lanes>)
    requires DeadOutside(alive, cx, cy, cz)
    requires InBlocks(cx, cy, cz, px, py, pz) && i < 8 && k < 8 && |b| == 8 && |down| == 8
    requires forall j :: 0 <= j < 8 ==> WordHolds(b[j], alive, Rows, px, py, pz, j)
    requires py > 0 ==> forall j :: 0 <= j < 8 ==> WordHolds(down[j], alive, Rows, px, py - 1, pz, j)
    ensures DownLane(b, down, py > 0, i, k) == Row3(alive, CellX(px, k), CellY(py, i, k) - 1, CellZ(pz, i))
  {
    var x, y, z := CellX(px, k), CellY(py, i, k), CellZ(pz, i);
    YCellsPrev(px, py, pz, i, k);
    if k >= 4 {
      RowsLane(alive, b[i], px, py, pz, i, k - 4);
    } else if i % 2 == 1 {
      RowsLane(alive, b[i - 1], px, py, pz, i - 1, k + 4);
    } else if py > 0 {
      RowsLane(alive, down[i + 1], px, py - 1, pz, i + 1, k + 4);
    } else {
      RowBelowEdge(alive, cx, cy, cz, x, y, z);
    }
  }

  /** Lane `m` of a word of the Y pass's input holds its row of three. */
  lemma RowsLane(alive: (int, int, int) -> bool, w: Lanes, px: nat, py: nat, pz: nat, i: nat, m: nat)
    requires m < 8 && WordHolds(w, alive, Rows, px, py, pz, i)
    ensures w[m] == Row3(alive, CellX(px, m), CellY(py, i, m), CellZ(pz, i))
  {
  }

  /** Below the bottom row of the grid no cell is alive. */
  lemma RowBelowEdge(alive: (int, int, int) -> bool, cx: nat, cy: nat, cz: nat, x: int, y: int, z: int)
    requires DeadOutside(alive, cx, cy, cz) && y == 0
    ensures Row3(alive, x, y - 1, z) == 0
  {
    assert OffGrid(cx, cy, cz, x - 1, y - 1, z) && OffGrid(cx, cy, cz, x, y - 1, z) && OffGrid(cx, cy, cz, x + 1, y - 1, z);
  }

  /** One counter after the Y pass holds the live cells of the 3x3 square
      of its layer around its cell. */
  lemma YLanePlane(alive: (int, int, int) -> bool, cx: nat, cy: nat, cz: nat, px: nat, py: nat, pz: nat, i: nat, k: nat,
                   b: seq<Lanes>, down: seq<Lanes>, up: seq<Lanes>)
    requires DeadOutside(alive, cx, cy, cz)
    requires InBlocks(cx, cy, cz, px, py, pz) && i < 8 && k < 8 && |b| == 8 && |down| == 8 && |up| == 8
    requires forall j :: 0 <= j < 8 ==> WordHolds(b[j], alive, Rows, px, py, pz, j)
    requires py > 0 ==> forall j :: 0 <= j < 8 ==> WordHolds(down[j], alive, Rows, px, py - 1, pz, j)
    requires py + 1 < cy ==> forall j :: 0 <= j < 8 ==> WordHolds(up[j], alive, Rows, px, py + 1, pz, j)
    ensures YWord(b, down, up, py > 0, py + 1 < cy, i)[k] == Plane3(alive, CellX(px, k), CellY(py, i, k), CellZ(pz, i))
  {
    YNext(alive, cx, cy, cz, px, py, pz, i, k, b, up);
    YPrev(alive, cx, cy, cz, px, py, pz, i, k, b, down);
    assert b[i][k] == Row3(alive, CellX(px, k), CellY(py, i, k), CellZ(pz, i));
  }

  /** The words of the block before along Y hold their rows. */
  lemma DownHolds(src: seq<nat>, cx: nat, cy: nat, cz: nat, alive: (int, int, int) -> bool, stage: Stage, px: nat, py: nat, pz: nat,
                  down: seq<Lanes>)
    requires Holds(src, cx, cy, cz, alive, stage, BlockCount(cx, cy, cz))
    requires InBlocks(cx, cy, cz, px, py, pz) && py > 0
    requires down == BlockAt(src, BlockIndex(cx, cy, px, py, pz) - cx)
    ensures forall j :: 0 <= j < 8 ==> WordHolds(down[j], alive, stage, px, py - 1, pz, j)
  {
    BlockSteps(cx, cy, px, py - 1, pz);
    BlockAtHolds(src, cx, cy, cz, alive, stage, px, py - 1, pz, BlockIndex(cx, cy, px, py, pz) - cx);
  }

  /** The words of the block after along Y hold their rows. */
  lemma UpHolds(src: seq<nat>, cx: nat, cy: nat, cz: nat, alive: (int, int, int) -> bool, stage: Stage, px: nat, py: nat, pz: nat,
                up: seq<Lanes>)
    requires Holds(src, cx, cy, cz, alive, stage, BlockCount(cx, cy, cz))
    requires InBlocks(cx, cy, cz, px, py, pz) && py + 1 < cy
    requires up == BlockAt(src, BlockIndex(cx, cy, px, py, pz) + cx)
    ensures forall j :: 0 <= j < 8 ==> WordHolds(up[j], alive, stage, px, py + 1, pz, j)
  {
    BlockSteps(cx, cy, px, py, pz);
    BlockAtHolds(src, cx, cy, cz, alive, stage, px, py + 1, pz, BlockIndex(cx, cy, px, py, pz) + cx);
  }

  /** After the Y pass every counter of a block holds the live cells of the
      3x3 square of its layer around its cell. */
  lemma YWordPlanes(src: seq<nat>, cx: nat, cy: nat, cz: nat, alive: (int, int, int) -> bool, px: nat, py: nat, pz: nat,
                    b: seq<Lanes>, down: seq<Lanes>, up: seq<Lanes>)
    requires Holds(src, cx, cy, cz, alive, Rows, BlockCount(cx, cy, cz)) && DeadOutside(alive, cx, cy, cz)
    requires InBlocks(cx, cy, cz, px, py, pz)
    requires b == BlockAt(src, BlockIndex(cx, cy, px, py, pz))
    requires down == BlockAt(src, BlockIndex(cx, cy, px, py, pz) - cx)
    requires up == BlockAt(src, BlockIndex(cx, cy, px, py, pz) + cx)
    ensures forall i, k :: 0 <= i < 8 && 0 <= k < 8 ==>
      YWord(b, down, up, py > 0, py + 1 < cy, i)[k] == Plane3(alive, CellX(px, k), CellY(py, i, k), CellZ(pz, i))
  {
    BlockAtHolds(src, cx, cy, cz, alive, Rows, px, py, pz, BlockIndex(cx, cy, px, py, pz));
    if py > 0 {
      DownHolds(src, cx, cy, cz, alive, Rows, px, py, pz, down);
    }
    if py + 1 < cy {
      UpHolds(src, cx, cy, cz, alive, Rows, px, py, pz, up);
    }
    forall i, k | 0 <= i < 8 && 0 <= k < 8
      ensures YWord(b, down, up, py > 0, py + 1 < cy, i)[k] == Plane3(alive, CellX(px, k), CellY(py, i, k), CellZ(pz, i))
    {
      YLanePlane(alive, cx, cy, cz, px, py, pz, i, k, b, down, up);
    }
  }

  /** The counters of block number `ib`, at `(px, py, pz)`, after the Y
      pass: the 3x3 square of the layer around each cell. */
  method YCounts(src: seq<nat>, cx: nat, cy: nat, cz: nat, ib: nat, px: nat, py: nat, pz: nat,
                 ghost alive: (int, int, int) -> bool) returns (acc: seq<Lanes>)
    requires |src| == 64 * BlockCount(cx, cy, cz)
    requires Holds(src, cx, cy, cz, alive, Rows, BlockCount(cx, cy, cz)) && DeadOutside(alive, cx, cy, cz)
    requires InBlocks(cx, cy, cz, px, py, pz) && ib == BlockIndex(cx, cy, px, py, pz)
    ensures |acc| == 8
    ensures forall i, k {:trigger acc[i][k]} :: 0 <= i < 8 && 0 <= k < 8 ==>
      acc[i][k] == Expected(Planes, alive, CellX(px, k), CellY(py, i, k), CellZ(pz, i))
  {
    BlockSteps(cx, cy, px, py, pz);
    BlockIndexBound(cx, cy, cz, px, py, pz);
    if py > 0 {
      BlockSteps(cx, cy, px, py - 1, pz);
    }
    if py + 1 < cy {
      BlockIndexBound(cx, cy, cz, px, py + 1, pz);
    }
    ghost var b, down, up := BlockAt(src, ib), BlockAt(src, ib - cx), BlockAt(src, ib + cx);
    acc := YBlock(src, cx, cy, ib, py);
    YWordPlanes(src, cx, cy, cz, alive, px, py, pz, b, down, up);
    forall i, k | 0 <= i < 8 && 0 <= k < 8
      ensures acc[i][k] == Expected(Planes, alive, CellX(px, k), CellY(py, i, k), CellZ(pz, i))
    {
      assert acc[i] == YWord(b, down, up, py > 0, py + 1 < cy, i);
    }
  }

  /** The body of the block loop of `acc_y`: block number `ib`, at
      position `(px, py, pz)`, gets its counters after the Y pass. */
  method AccYBlock(src: seq<nat>, dst: array<nat>, cx: nat, cy: nat, cz: nat, ib: nat, px: nat, py: nat, pz: nat,
                   ghost alive: (int, int, int) -> bool)
    requires |src| == 64 * BlockCount(cx, cy, cz) && |src| <= dst.Length
    requires Holds(src, cx, cy, cz, alive, Rows, BlockCount(cx, cy, cz)) && DeadOutside(alive, cx, cy, cz)
    requires InBlocks(cx, cy, cz, px, py, pz) && ib == BlockIndex(cx, cy, px, py, pz)
    requires Holds(dst[..], cx, cy, cz, alive, Planes, ib)
    modifies dst
    ensures Holds(dst[..], cx, cy, cz, alive, Planes, ib + 1)
    ensures forall n :: 0 <= n < dst.Length && !(64 * ib <= n < 64 * ib + 64) ==> dst[n] == old(dst[n])
  {
    BlockIndexBound(cx, cy, cz, px, py, pz);
    var acc := YCounts(src, cx, cy, cz, ib, px, py, pz, alive);
    StoreBlock(dst, 64 * ib, acc, cx, cy, cz, px, py, pz, alive, Planes);
  }

  /** `acc_y`: the Y pass from `src`, the counters after the X pass, into
      `dst`.  Afterwards every counter of `dst` holds the live cells of the
      3x3 square of its layer around its cell; the rest of `dst` is
      untouched. */
  method AccY(src: seq<nat>, dst: array<nat>, cx: nat, cy: nat, cz: nat, ghost alive: (int, int, int) -> bool)
    requires |src| == 64 * BlockCount(cx, cy, cz) && |src| <= dst.Length
    requires Holds(src, cx, cy, cz, alive, Rows, BlockCount(cx, cy, cz)) && DeadOutside(alive, cx, cy, cz)
    modifies dst
    ensures Holds(dst[..], cx, cy, cz, alive, Planes, BlockCount(cx, cy, cz))
    ensures forall n :: |src| <= n < dst.Length ==> dst[n] == old(dst[n])
  {
    FirstBlock(cx, cy, cz);
    var blocks := |src| / 64;
    assert blocks == BlockCount(cx, cy, cz);
    var px, py, pz := 0, 0, 0;
    var ic := 0;
    for ib := 0 to blocks
      invariant ic == 64 * ib
      invariant ib < blocks ==> InBlocks(cx, cy, cz, px, py, pz) && BlockIndex(cx, cy, px, py, pz) == ib
      invariant Holds(dst[..], cx, cy, cz, alive, Planes, ib)
      invariant forall n :: 64 * ib <= n < dst.Length ==> dst[n] == old(dst[n])
    {
      AccYBlock(src, dst, cx, cy, cz, ib, px, py, pz, alive);
      ic := ic + 64;
      if ib + 1 < blocks {
        NextBlock(cx, cy, cz, px, py, pz);
      }
      px := px + 1;
      if px >= cx {
        px := 0;
        py := py + 1;
        if py >= cy {
          py := 0;
          pz := pz + 1;
        }
      }
    }
  }

  // ------------------------------------------------------ acc_z

  /** A word after the Z pass: each byte plus the byte of the layers
      `z + 1` and `z - 1`, two words away; across the faces `z = 3` and
      `z = 0` the facing word of the next or previous block along Z, when
      there is one. */
  function ZWord(b: seq<Lanes>, below: seq<Lanes>, above: seq<Lanes>, hasBelow: bool, hasAbove: bool, i: nat): Lanes
    requires |b| == 8 && |below| == 8 && |above| == 8 && i < 8
  {
    seq(8, k requires 0 <= k < 8 =>
      b[i][k]
        + (if i < 6 then b[i + 2][k] else if hasAbove then above[i - 6][k] else 0)
        + (if i >= 2 then b[i - 2][k] else if hasBelow then below[i + 6][k] else 0))
  }

  /** Word `i` after the in-block step of the Z pass. */
  function ZInner(b: seq<Lanes>, i: nat): Lanes
    requires |b| == 8 && i < 8
  {
    seq(8, k requires 0 <= k < 8 =>
      b[i][k] + (if i < 6 then b[i + 2][k] else 0) + (if i >= 2 then b[i - 2][k] else 0))
  }

  /** The in-block step of `acc_z`: the word two before, then the word two
      after, is added to each word. */
  method ZRows(b: seq<Lanes>) returns (acc: seq<Lanes>)
    requires |b| == 8
    ensures |acc| == 8 && forall i :: 0 <= i < 8 ==> acc[i] == ZInner(b, i)
  {
    acc := b;
    for i := 2 to 8
      invariant |acc| == 8
      invariant forall j {:trigger acc[j]} :: 0 <= j < 8 ==> acc[j] == if 2 <= j < i then AddBytes(b[j], b[j - 2]) else b[j]
    {
      acc := acc[i := AddBytes(acc[i], b[i - 2])];
    }
    ghost var mid := acc;
    for i := 0 to 6
      invariant |acc| == 8
      invariant forall j {:trigger acc[j]} :: 0 <= j < 8 ==> acc[j] == if j < i then AddBytes(mid[j], b[j + 2]) else mid[j]
    {
      acc := acc[i := AddBytes(acc[i], b[i + 2])];
    }
  }

  /** The in-block step followed by the fixups makes `ZWord`. */
  lemma ZSteps(b: seq<Lanes>, below: seq<Lanes>, above: seq<Lanes>, hasBelow: bool, hasAbove: bool, i: nat)
    requires |b| == 8 && |below| == 8 && |above| == 8 && i < 8
    ensures var m := if hasBelow && i < 2 then AddBytes(ZInner(b, i), below[i + 6]) else ZInner(b, i);
      ZWord(b, below, above, hasBelow, hasAbove, i) == if hasAbove && i >= 6 then AddBytes(m, above[i - 6]) else m
  {
    var m := if hasBelow && i < 2 then AddBytes(ZInner(b, i), below[i + 6]) else ZInner(b, i);
    var r := if hasAbove && i >= 6 then AddBytes(m, above[i - 6]) else m;
    forall k | 0 <= k < 8
      ensures ZWord(b, below, above, hasBelow, hasAbove, i)[k] == r[k]
    {
    }
  }

  /** The arithmetic of the block loop of `acc_z`: the counters of block
      number `ib`, at Z position `pz`, after the Z pass. */
  method ZBlock(src: seq<nat>, cz: nat, ib: nat, dz: nat, pz: nat) returns (acc: seq<Lanes>)
    requires 64 * ib + 64 <= |src| && pz < cz
    requires pz > 0 ==> ib >= dz
    requires pz + 1 < cz ==> 64 * (ib + dz) + 64 <= |src|
    ensures |acc| == 8
    ensures forall i :: 0 <= i < 8 ==>
      acc[i] == ZWord(BlockAt(src, ib), BlockAt(src, ib - dz), BlockAt(src, ib + dz), pz > 0, pz + 1 < cz, i)
  {
    var b := BlockAt(src, ib);
    acc := ZRows(b);
    ghost var inner := acc;
    ghost var below := BlockAt(src, ib - dz);
    if pz > 0 {
      var zm := BlockAt(src, ib - dz);
      acc := acc[0 := AddBytes(acc[0], zm[6])];
      acc := acc[1 := AddBytes(acc[1], zm[7])];
    }
    ghost var above := BlockAt(src, ib + dz);
    if pz + 1 < cz {
      var zp := BlockAt(src, ib + dz);
      acc := acc[6 := AddBytes(acc[6], zp[0])];
      acc := acc[7 := AddBytes(acc[7], zp[1])];
    }
    forall i | 0 <= i < 8
      ensures acc[i] == ZWord(b, below, above, pz > 0, pz + 1 < cz, i)
    {
      ZSteps(b, below, above, pz > 0, pz + 1 < cz, i);
    }
  }

  /** A layer off the grid holds no live cell. */
  lemma DeadPlane(alive: (int, int, int) -> bool, cx: nat, cy: nat, cz: nat, x: int, y: int, z: int)
    requires DeadOutside(alive, cx, cy, cz) && (z < 0 || z >= 4 * cz)
    ensures Plane3(alive, x, y, z) == 0
  {
    assert OffGrid(cx, cy, cz, x - 1, y - 1, z) && OffGrid(cx, cy, cz, x, y - 1, z) && OffGrid(cx, cy, cz, x + 1, y - 1, z);
    assert OffGrid(cx, cy, cz, x - 1, y, z) && OffGrid(cx, cy, cz, x, y, z) && OffGrid(cx, cy, cz, x + 1, y, z);
    assert OffGrid(cx, cy, cz, x - 1, y + 1, z) && OffGrid(cx, cy, cz, x, y + 1, z) && OffGrid(cx, cy, cz, x + 1, y + 1, z);
  }

  /** The `z + 1` neighbour of a counter in the Z pass holds the square of
      the layer `z + 1`, or nothing at the edge of the grid. */
  lemma ZNext(alive: (int, int, int) -> bool, cx: nat, cy: nat, cz: nat, px: nat, py: nat, pz: nat, i: nat, k: nat,
              b: seq<Lanes>, above: seq<Lanes>)
    requires DeadOutside(alive, cx, cy, cz)
    requires InBlocks(cx, cy, cz, px, py, pz) && i < 8 && k < 8 && |b| == 8 && |above| == 8
    requires forall j :: 0 <= j < 8 ==> WordHolds(b[j], alive, Planes, px, py, pz, j)
    requires pz + 1 < cz ==> forall j :: 0 <= j < 8 ==> WordHolds(above[j], alive, Planes, px, py, pz + 1, j)
    ensures (if i < 6 then b[i + 2][k] else if pz + 1 < cz then above[i - 6][k] else 0)
      == Plane3(alive, CellX(px, k), CellY(py, i, k), CellZ(pz, i) + 1)
  {
    var x, y, z := CellX(px, k), CellY(py, i, k), CellZ(pz, i);
    ZCellsNext(px, py, pz, i, k);
    if i >= 6 && pz + 1 >= cz {
      DeadPlane(alive, cx, cy, cz, x, y, z + 1);
    }
  }

  /** The `z - 1` neighbour of a counter in the Z pass. */
  lemma ZPrev(alive: (int, int, int) -> bool, cx: nat, cy: nat, cz: nat, px: nat, py: nat, pz: nat, i: nat, k: nat,
              b: seq<Lanes>, below: seq<Lanes>)
    requires DeadOutside(alive, cx, cy, cz)
    requires InBlocks(cx, cy, cz, px, py, pz) && i < 8 && k < 8 && |b| == 8 && |below| == 8
    requires forall j :: 0 <= j < 8 ==> WordHolds(b[j], alive, Planes, px, py, pz, j)
    requires pz > 0 ==> forall j :: 0 <= j < 8 ==> WordHolds(below[j], alive, Planes, px, py, pz - 1, j)
    ensures (if i >= 2 then b[i - 2][k] else if pz > 0 then below[i + 6][k] else 0)
      == Plane3(alive, CellX(px, k), CellY(py, i, k), CellZ(pz, i) - 1)
  {
    var x, y, z := CellX(px, k), CellY(py, i, k), CellZ(pz, i);
    ZCellsPrev(px, py, pz, i, k);
    if i < 2 && pz == 0 {
      DeadPlane(alive, cx, cy, cz, x, y, z - 1);
    }
  }

  /** One counter after the Z pass holds the live cells of the 3x3x3 box
      around its cell. */
  lemma ZLaneBox(alive: (int, int, int) -> bool, cx: nat, cy: nat, cz: nat, px: nat, py: nat, pz: nat, i: nat, k: nat,
                 b: seq<Lanes>, below: seq<Lanes>, above: seq<Lanes>)
    requires DeadOutside(alive, cx, cy, cz)
    requires InBlocks(cx, cy, cz, px, py, pz) && i < 8 && k < 8 && |b| == 8 && |below| == 8 && |above| == 8
    requires forall j :: 0 <= j < 8 ==> WordHolds(b[j], alive, Planes, px, py, pz, j)
    requires pz > 0 ==> forall j :: 0 <= j < 8 ==> WordHolds(below[j], alive, Planes, px, py, pz - 1, j)
    requires pz + 1 < cz ==> forall j :: 0 <= j < 8 ==> WordHolds(above[j], alive, Planes, px, py, pz + 1, j)
    ensures ZWord(b, below, above, pz > 0, pz + 1 < cz, i)[k] == Box3(alive, CellX(px, k), CellY(py, i, k), CellZ(pz, i))
  {
    var x, y, z := CellX(px, k), CellY(py, i, k), CellZ(pz, i);
    var next := if i < 6 then b[i + 2][k] else if pz + 1 < cz then above[i - 6][k] else 0;
    var prev := if i >= 2 then b[i - 2][k] else if pz > 0 then below[i + 6][k] else 0;
    assert ZWord(b, below, above, pz > 0, pz + 1 < cz, i)[k] == b[i][k] + next + prev;
    ZNext(alive, cx, cy, cz, px, py, pz, i, k, b, above);
    ZPrev(alive, cx, cy, cz, px, py, pz, i, k, b, below);
    assert b[i][k] == Plane3(alive, x, y, z);
  }

  /** The block `cx * cy` places before a block is the one below it. */
  lemma BelowIndex(cx: nat, cy: nat, px: nat, py: nat, pz: nat)
    requires pz > 0
    ensures BlockIndex(cx, cy, px, py, pz) - Mul(cx, cy) == BlockIndex(cx, cy, px, py, pz - 1)
  {
    BlockSteps(cx, cy, px, py, pz - 1);
  }

  /** The block `cx * cy` places after a block is the one above it. */
  lemma AboveIndex(cx: nat, cy: nat, px: nat, py: nat, pz: nat)
    ensures BlockIndex(cx, cy, px, py, pz) + Mul(cx, cy) == BlockIndex(cx, cy, px, py, pz + 1)
  {
    BlockSteps(cx, cy, px, py, pz);
  }

  /** The words of the block before along Z hold their counts. */
  lemma BelowHolds(src: seq<nat>, cx: nat, cy: nat, cz: nat, alive: (int, int, int) -> bool, stage: Stage, px: nat, py: nat, pz: nat,
                   n: int)
    requires Holds(src, cx, cy, cz, alive, stage, BlockCount(cx, cy, cz))
    requires InBlocks(cx, cy, cz, px, py, pz) && pz > 0 && n == BlockIndex(cx, cy, px, py, pz) - Mul(cx, cy)
    ensures forall j :: 0 <= j < 8 ==> WordHolds(BlockAt(src, n)[j], alive, stage, px, py, pz - 1, j)
  {
    BelowIndex(cx, cy, px, py, pz);
    LayerBelowHolds(src, cx, cy, cz, alive, stage, px, py, pz, n);
  }

  /** The words of the block after along Z hold their counts. */
  lemma AboveHolds(src: seq<nat>, cx: nat, cy: nat, cz: nat, alive: (int, int, int) -> bool, stage: Stage, px: nat, py: nat, pz: nat,
                   n: int)
    requires Holds(src, cx, cy, cz, alive, stage, BlockCount(cx, cy, cz))
    requires InBlocks(cx, cy, cz, px, py, pz) && pz + 1 < cz && n == BlockIndex(cx, cy, px, py, pz) + Mul(cx, cy)
    ensures forall j :: 0 <= j < 8 ==> WordHolds(BlockAt(src, n)[j], alive, stage, px, py, pz + 1, j)
  {
    AboveIndex(cx, cy, px, py, pz);
    LayerAboveHolds(src, cx, cy, cz, alive, stage, px, py, pz, n);
  }

  /** The words of the block below, once its index is known. */
  lemma LayerBelowHolds(src: seq<nat>, cx: nat, cy: nat, cz: nat, alive: (int, int, int) -> bool, stage: Stage, px: nat, py: nat, pz: nat,
                        n: int)
    requires Holds(src, cx, cy, cz, alive, stage, BlockCount(cx, cy, cz))
    requires InBlocks(cx, cy, cz, px, py, pz) && pz > 0 && n == BlockIndex(cx, cy, px, py, pz - 1)
    ensures forall j :: 0 <= j < 8 ==> WordHolds(BlockAt(src, n)[j], alive, stage, px, py, pz - 1, j)
  {
    BlockAtHolds(src, cx, cy, cz, alive, stage, px, py, pz - 1, n);
  }

  /** The words of the block above, once its index is known. */
  lemma LayerAboveHolds(src: seq<nat>, cx: nat, cy: nat, cz: nat, alive: (int, int, int) -> bool, stage: Stage, px: nat, py: nat, pz: nat,
                        n: int)
    requires Holds(src, cx, cy, cz, alive, stage, BlockCount(cx, cy, cz))
    requires InBlocks(cx, cy, cz, px, py, pz) && pz + 1 < cz && n == BlockIndex(cx, cy, px, py, pz + 1)
    ensures forall j :: 0 <= j < 8 ==> WordHolds(BlockAt(src, n)[j], alive, stage, px, py, pz + 1, j)
  {
    BlockAtHolds(src, cx, cy, cz, alive, stage, px, py, pz + 1, n);
  }

  /** After the Z pass word `i` of a block holds the live cells of the
      3x3x3 box around the cell of each byte. */
  lemma ZWordBox(alive: (int, int, int) -> bool, cx: nat, cy: nat, cz: nat, px: nat, py: nat, pz: nat, i: nat,
                 b: seq<Lanes>, below: seq<Lanes>, above: seq<Lanes>, hasBelow: bool, hasAbove: bool)
    requires hasBelow == (pz > 0) && hasAbove == (pz + 1 < cz)
    requires DeadOutside(alive, cx, cy, cz)
    requires InBlocks(cx, cy, cz, px, py, pz) && i < 8 && |b| == 8 && |below| == 8 && |above| == 8
    requires forall j :: 0 <= j < 8 ==> WordHolds(b[j], alive, Planes, px, py, pz, j)
    requires pz > 0 ==> forall j :: 0 <= j < 8 ==> WordHolds(below[j], alive, Planes, px, py, pz - 1, j)
    requires pz + 1 < cz ==> forall j :: 0 <= j < 8 ==> WordHolds(above[j], alive, Planes, px, py, pz + 1, j)
    ensures WordHolds(ZWord(b, below, above, hasBelow, hasAbove, i), alive, Boxes, px, py, pz, i)
  {
    forall k | 0 <= k < 8
      ensures ZWord(b, below, above, pz > 0, pz + 1 < cz, i)[k] == Box3(alive, CellX(px, k), CellY(py, i, k), CellZ(pz, i))
    {
      ZLaneBox(alive, cx, cy, cz, px, py, pz, i, k, b, below, above);
    }
  }

  /** After the Z pass every word of a block holds the live cells of the
      3x3x3 box around the cell of each byte. */
  lemma ZWordBoxes(alive: (int, int, int) -> bool, cx: nat, cy: nat, cz: nat, px: nat, py: nat, pz: nat,
                   b: seq<Lanes>, below: seq<Lanes>, above: seq<Lanes>, hasBelow: bool, hasAbove: bool)
    requires hasBelow == (pz > 0) && hasAbove == (pz + 1 < cz)
    requires DeadOutside(alive, cx, cy, cz)
    requires InBlocks(cx, cy, cz, px, py, pz) && |b| == 8 && |below| == 8 && |above| == 8
    requires forall j :: 0 <= j < 8 ==> WordHolds(b[j], alive, Planes, px, py, pz, j)
    requires pz > 0 ==> forall j :: 0 <= j < 8 ==> WordHolds(below[j], alive, Planes, px, py, pz - 1, j)
    requires pz + 1 < cz ==> forall j :: 0 <= j < 8 ==> WordHolds(above[j], alive, Planes, px, py, pz + 1, j)
    ensures forall i :: 0 <= i < 8 ==> WordHolds(ZWord(b, below, above, hasBelow, hasAbove, i), alive, Boxes, px, py, pz, i)
  {
    forall i | 0 <= i < 8
      ensures WordHolds(ZWord(b, below, above, hasBelow, hasAbove, i), alive, Boxes, px, py, pz, i)
    {
      ZWordBox(alive, cx, cy, cz, px, py, pz, i, b, below, above, hasBelow, hasAbove);
    }
  }

  /** The counters of block number `ib`, at `(px, py, pz)`, after the Z
      pass: the 3x3x3 box around each cell. */
  method ZCounts(src: seq<nat>, cx: nat, cy: nat, cz: nat, ib: nat, dz: nat, px: nat, py: nat, pz: nat,
                 ghost alive: (int, int, int) -> bool) returns (acc: seq<Lanes>)
    requires |src| == 64 * BlockCount(cx, cy, cz)
    requires Holds(src, cx, cy, cz, alive, Planes, BlockCount(cx, cy, cz)) && DeadOutside(alive, cx, cy, cz)
    requires InBlocks(cx, cy, cz, px, py, pz) && ib == BlockIndex(cx, cy, px, py, pz) && dz == Mul(cx, cy)
    ensures |acc| == 8
    ensures forall i, k {:trigger acc[i][k]} :: 0 <= i < 8 && 0 <= k < 8 ==>
      acc[i][k] == Expected(Boxes, alive, CellX(px, k), CellY(py, i, k), CellZ(pz, i))
  {
    BlockIndexBound(cx, cy, cz, px, py, pz);
    if pz > 0 {
      BelowIndex(cx, cy, px, py, pz);
    }
    AboveIndex(cx, cy, px, py, pz);
    if pz + 1 < cz {
      BlockIndexBound(cx, cy, cz, px, py, pz + 1);
    }
    acc := ZBlock(src, cz, ib, dz, pz);
    BlockAtHolds(src, cx, cy, cz, alive, Planes, px, py, pz, ib);
    if pz > 0 {
      BelowHolds(src, cx, cy, cz, alive, Planes, px, py, pz, ib - dz);
    }
    if pz + 1 < cz {
      AboveHolds(src, cx, cy, cz, alive, Planes, px, py, pz, ib + dz);
    }
    ZWordBoxes(alive, cx, cy, cz, px, py, pz, BlockAt(src, ib), BlockAt(src, ib - dz), BlockAt(src, ib + dz), pz > 0, pz + 1 < cz);
    ZAccBoxes(alive, px, py, pz, acc, BlockAt(src, ib), BlockAt(src, ib - dz), BlockAt(src, ib + dz), pz > 0, pz + 1 < cz);
  }

  /** Counters equal to the words of the Z pass hold the 3x3x3 boxes. */
  lemma ZAccBoxes(alive: (int, int, int) -> bool, px: nat, py: nat, pz: nat, acc: seq<Lanes>,
                  b: seq<Lanes>, below: seq<Lanes>, above: seq<Lanes>, hasBelow: bool, hasAbove: bool)
    requires |b| == 8 && |below| == 8 && |above| == 8
    requires |acc| == 8 && forall i :: 0 <= i < 8 ==> acc[i] == ZWord(b, below, above, hasBelow, hasAbove, i)
    requires forall i :: 0 <= i < 8 ==> WordHolds(ZWord(b, below, above, hasBelow, hasAbove, i), alive, Boxes, px, py, pz, i)
    ensures forall i, k {:trigger acc[i][k]} :: 0 <= i < 8 && 0 <= k < 8 ==>
      acc[i][k] == Expected(Boxes, alive, CellX(px, k), CellY(py, i, k), CellZ(pz, i))
  {
    forall i, k | 0 <= i < 8 && 0 <= k < 8
      ensures acc[i][k] == Expected(Boxes, alive, CellX(px, k), CellY(py, i, k), CellZ(pz, i))
    {
      assert WordHolds(acc[i], alive, Boxes, px, py, pz, i);
    }
  }

  /** The body of the block loop of `acc_z`: block number `ib`, at
      position `(px, py, pz)`, gets its counters after the Z pass. */
  method AccZBlock(src: seq<nat>, dst: array<nat>, cx: nat, cy: nat, cz: nat, ib: nat, dz: nat, px: nat, py: nat, pz: nat,
                   ghost alive: (int, int, int) -> bool)
    requires |src| == 64 * BlockCount(cx, cy, cz) && |src| <= dst.Length
    requires Holds(src, cx, cy, cz, alive, Planes, BlockCount(cx, cy, cz)) && DeadOutside(alive, cx, cy, cz)
    requires InBlocks(cx, cy, cz, px, py, pz) && ib == BlockIndex(cx, cy, px, py, pz) && dz == Mul(cx, cy)
    requires Holds(dst[..], cx, cy, cz, alive, Boxes, ib)
    modifies dst
    ensures Holds(dst[..], cx, cy, cz, alive, Boxes, ib + 1)
    ensures forall n :: 0 <= n < dst.Length && !(64 * ib <= n < 64 * ib + 64) ==> dst[n] == old(dst[n])
  {
    BlockIndexBound(cx, cy, cz, px, py, pz);
    var acc := ZCounts(src, cx, cy, cz, ib, dz, px, py, pz, alive);
    StoreBlock(dst, 64 * ib, acc, cx, cy, cz, px, py, pz, alive, Boxes);
  }

  /** `acc_z`: the Z pass from `src`, the counters after the Y pass, into
      `dst`.  Afterwards every counter of `dst` holds the live cells of the
      3x3x3 box around its cell; the rest of `dst` is untouched. */
  method AccZ(src: seq<nat>, dst: array<nat>, cx: nat, cy: nat, cz: nat, ghost alive: (int, int, int) -> bool)
    requires |src| == 64 * BlockCount(cx, cy, cz) && |src| <= dst.Length
    requires Holds(src, cx, cy, cz, alive, Planes, BlockCount(cx, cy, cz)) && DeadOutside(alive, cx, cy, cz)
    modifies dst
    ensures Holds(dst[..], cx, cy, cz, alive, Boxes, BlockCount(cx, cy, cz))
    ensures forall n :: |src| <= n < dst.Length ==> dst[n] == old(dst[n])
  {
    var dz := cx * cy;
    MulIsProduct(cx, cy);
    FirstBlock(cx, cy, cz);
    var blocks := |src| / 64;
    assert blocks == BlockCount(cx, cy, cz);
    var px, py, pz := 0, 0, 0;
    var ic := 0;
    for ib := 0 to blocks
      invariant ic == 64 * ib
      invariant ib < blocks ==> InBlocks(cx, cy, cz, px, py, pz) && BlockIndex(cx, cy, px, py, pz) == ib
      invariant Holds(dst[..], cx, cy, cz, alive, Boxes, ib)
      invariant forall n :: 64 * ib <= n < dst.Length ==> dst[n] == old(dst[n])
    {
      AccZBlock(src, dst, cx, cy, cz, ib, dz, px, py, pz, alive);
      ic := ic + 64;
      if ib + 1 < blocks {
        NextBlock(cx, cy, cz, px, py, pz);
      }
      px := px + 1;
      if px >= cx {
        px := 0;
        py := py + 1;
        if py >= cy {
          py := 0;
          pz := pz + 1;
        }
      }
    }
  }

  // ------------------------------------------------------ count_neighbors_separable_m

  /** A block of eight words seen as its 64 bytes (`bytemuck::cast` to
      `[u8; 64]`): byte `k` of word `i` is byte `8 * i + k`. */
  function Bytes(ws: seq<Lanes>): (r: seq<nat>)
    requires |ws| == 8
    ensures |r| == 64
    ensures forall j :: 0 <= j < 64 ==> r[j] == ws[j / 8][j % 8]
  {
    seq(64, j requires 0 <= j < 64 => ws[j / 8][j % 8])
  }

  /** The cell of byte `j` of block `(px, py, pz)`. */
  function ByteX(px: nat, j: nat): int { CellX(px, j % 8) }
  function ByteY(py: nat, j: nat): int { CellY(py, j / 8, j % 8) }
  function ByteZ(pz: nat, j: nat): int { CellZ(pz, j / 8) }

  /** `counts[ic + i] -= b[i]` for `i` in `0..64`: the 64 counters of one
      block lose the bytes of `b`, each of which is at most its counter, so
      no `u8` subtraction underflows.  Nothing else changes. */
  method SubtractBlock(counts: array<nat>, ic: nat, b: seq<nat>)
    requires Fits(counts[..], ic, b)
    modifies counts
    ensures counts[..] == Subtracted(old(counts[..]), ic, b)
  {
    for j := 0 to 64
      invariant forall n :: 0 <= n < counts.Length ==>
        counts[n] == if ic <= n < ic + j then old(counts[n]) - b[n - ic] else old(counts[n])
    {
      counts[ic + j] := counts[ic + j] - b[j];
    }
  }

  /** The 64 bytes of `b` fit under the 64 counters of `c` from `ic` on. */
  predicate Fits(c: seq<nat>, ic: nat, b: seq<nat>)
  {
    |b| == 64 && ic + 64 <= |c| && forall j :: 0 <= j < 64 ==> b[j] <= c[ic + j]
  }

  /** The counters `c` after the 64 from `ic` on lose the bytes of `b`. */
  function Subtracted(c: seq<nat>, ic: nat, b: seq<nat>): seq<nat>
    requires Fits(c, ic, b)
  {
    seq(|c|, n requires 0 <= n < |c| => if ic <= n < ic + 64 then c[n] - b[n - ic] else c[n])
  }

  /** From counter `from` on, `c` still holds the box counts `boxes`. */
  predicate Agrees(c: seq<nat>, boxes: seq<nat>, from: nat)
  {
    |c| == |boxes| && forall n :: from <= n < |c| ==> c[n] == boxes[n]
  }

  /** The bytes of block number `ib` fit under its counters while they
      still hold the box counts. */
  lemma BoxesFit(blk: seq<Lanes>, boxes: seq<nat>, before: seq<nat>, cx: nat, cy: nat, cz: nat,
                 alive: (int, int, int) -> bool, px: nat, py: nat, pz: nat, ib: nat, b: seq<nat>)
    requires Holds(boxes, cx, cy, cz, alive, Boxes, BlockCount(cx, cy, cz))
    requires InBlocks(cx, cy, cz, px, py, pz) && ib == BlockIndex(cx, cy, px, py, pz)
    requires BlockHolds(blk, alive, Cells, px, py, pz) && b == Bytes(blk)
    requires Agrees(before, boxes, 64 * ib)
    ensures Fits(before, 64 * ib, b)
  {
    BlockIndexBound(cx, cy, cz, px, py, pz);
    forall i: nat, k: nat | i < 8 && k < 8
      ensures 64 * ib + ByteAt(i, k) < |before| && b[ByteAt(i, k)] <= before[64 * ib + ByteAt(i, k)]
    {
      SelfInBoxAt(blk, boxes, cx, cy, cz, alive, px, py, pz, ib, b, i, k);
    }
    FitsByWords(before, 64 * ib, b);
  }

  /** Byte `k` of word `i` of a block. */
  function ByteAt(i: nat, k: nat): nat
  {
    8 * i + k
  }

  /** `Fits`, checked word by word. */
  lemma FitsByWords(c: seq<nat>, ic: nat, b: seq<nat>)
    requires |b| == 64
    requires forall i: nat, k: nat :: i < 8 && k < 8 ==> ic + ByteAt(i, k) < |c| && b[ByteAt(i, k)] <= c[ic + ByteAt(i, k)]
    ensures Fits(c, ic, b)
  {
    assert ic + ByteAt(7, 7) < |c|;
    forall j | 0 <= j < 64
      ensures b[j] <= c[ic + j]
    {
      ByteSplit(j, j / 8, j % 8);
      assert j == ByteAt(j / 8, j % 8);
    }
  }

  /** In block number `ib`, at `(px, py, pz)`, the byte of the cell of
      byte `k` of word `i` in its decompressed block is at most its box
      count, and the box count minus that byte is the count of its 26
      neighbours. */
  lemma SelfInBoxAt(blk: seq<Lanes>, boxes: seq<nat>, cx: nat, cy: nat, cz: nat, alive: (int, int, int) -> bool,
                    px: nat, py: nat, pz: nat, ib: nat, b: seq<nat>, i: nat, k: nat)
    requires Holds(boxes, cx, cy, cz, alive, Boxes, BlockCount(cx, cy, cz))
    requires InBlocks(cx, cy, cz, px, py, pz) && ib == BlockIndex(cx, cy, px, py, pz)
    requires BlockHolds(blk, alive, Cells, px, py, pz) && b == Bytes(blk)
    requires i < 8 && k < 8
    ensures Slot(cx, cy, px, py, pz, i, k) == 64 * ib + (8 * i + k) < |boxes|
    ensures b[8 * i + k] <= boxes[Slot(cx, cy, px, py, pz, i, k)]
    ensures boxes[Slot(cx, cy, px, py, pz, i, k)] - b[8 * i + k] == Moore26(alive, CellX(px, k), CellY(py, i, k), CellZ(pz, i))
  {
    BlockIndexBound(cx, cy, cz, px, py, pz);
    ByteSplit(8 * i + k, i, k);
    assert b[8 * i + k] == blk[i][k];
    assert WordHolds(blk[i], alive, Cells, px, py, pz, i);
    BoxMoore3(alive, CellX(px, k), CellY(py, i, k), CellZ(pz, i));
  }

  /** Byte `j` of a block is byte `k` of word `i` exactly when
      `j == 8 * i + k`. */
  lemma ByteSplit(j: nat, i: nat, k: nat)
    requires k < 8
    ensures j == 8 * i + k <==> j / 8 == i && j % 8 == k
  {
  }

  /** Subtracting the cells' own bytes from the box counts of block number
      `ib` extends what the first `ib` blocks hold to the first `ib + 1`. */
  lemma NeighboursNext(blk: seq<Lanes>, boxes: seq<nat>, before: seq<nat>, after: seq<nat>, cx: nat, cy: nat, cz: nat,
                       alive: (int, int, int) -> bool, px: nat, py: nat, pz: nat, ib: nat, b: seq<nat>)
    requires Holds(boxes, cx, cy, cz, alive, Boxes, BlockCount(cx, cy, cz))
    requires InBlocks(cx, cy, cz, px, py, pz) && ib == BlockIndex(cx, cy, px, py, pz)
    requires BlockHolds(blk, alive, Cells, px, py, pz) && b == Bytes(blk)
    requires Holds(before, cx, cy, cz, alive, Neighbours, ib)
    requires Agrees(before, boxes, 64 * ib) && Fits(before, 64 * ib, b)
    requires after == Subtracted(before, 64 * ib, b)
    ensures Holds(after, cx, cy, cz, alive, Neighbours, ib + 1)
    ensures Agrees(after, boxes, 64 * ib + 64)
  {
    forall qx: nat, qy: nat, qz: nat, i: nat, k: nat |
      InBlocks(cx, cy, cz, qx, qy, qz) && BlockIndex(cx, cy, qx, qy, qz) < ib + 1 && i < 8 && k < 8
      ensures Slot(cx, cy, qx, qy, qz, i, k) < |after|
      ensures after[Slot(cx, cy, qx, qy, qz, i, k)] == Expected(Neighbours, alive, CellX(qx, k), CellY(qy, i, k), CellZ(qz, i))
    {
      if BlockIndex(cx, cy, qx, qy, qz) == ib {
        BlockIndexInjective(cx, cy, cz, px, py, pz, qx, qy, qz);
        NewSlot(blk, boxes, before, after, cx, cy, cz, alive, px, py, pz, ib, b, i, k);
      } else {
        assert Slot(cx, cy, qx, qy, qz, i, k) < 64 * ib;
      }
    }
  }

  /** A counter of block number `ib` holds, once its byte is subtracted,
      the live cells among the 26 neighbours of its cell. */
  lemma NewSlot(blk: seq<Lanes>, boxes: seq<nat>, before: seq<nat>, after: seq<nat>, cx: nat, cy: nat, cz: nat,
                alive: (int, int, int) -> bool, px: nat, py: nat, pz: nat, ib: nat, b: seq<nat>, i: nat, k: nat)
    requires Holds(boxes, cx, cy, cz, alive, Boxes, BlockCount(cx, cy, cz))
    requires InBlocks(cx, cy, cz, px, py, pz) && ib == BlockIndex(cx, cy, px, py, pz)
    requires BlockHolds(blk, alive, Cells, px, py, pz) && b == Bytes(blk)
    requires Agrees(before, boxes, 64 * ib) && Fits(before, 64 * ib, b)
    requires after == Subtracted(before, 64 * ib, b)
    requires i < 8 && k < 8
    ensures Slot(cx, cy, px, py, pz, i, k) < |after|
    ensures after[Slot(cx, cy, px, py, pz, i, k)] == Expected(Neighbours, alive, CellX(px, k), CellY(py, i, k), CellZ(pz, i))
  {
    SelfInBoxAt(blk, boxes, cx, cy, cz, alive, px, py, pz, ib, b, i, k);
  }

  /** The body of the remove-self loop for block number `ib`, at
      `(px, py, pz)`: its counters go from the box counts to the Moore
      counts; the counters of the other blocks are untouched. */
  method RemoveSelfBlock(data: seq<Word64>, counts: array<nat>, cx: nat, cy: nat, cz: nat, ib: nat,
                         ghost px: nat, ghost py: nat, ghost pz: nat, ghost alive: (int, int, int) -> bool, ghost boxes: seq<nat>)
    requires Encodes(data, cx, cy, cz, alive) && Holds(boxes, cx, cy, cz, alive, Boxes, BlockCount(cx, cy, cz))
    requires InBlocks(cx, cy, cz, px, py, pz) && ib == BlockIndex(cx, cy, px, py, pz)
    requires Holds(counts[..], cx, cy, cz, alive, Neighbours, ib)
    requires Agrees(counts[..], boxes, 64 * ib)
    modifies counts
    ensures Holds(counts[..], cx, cy, cz, alive, Neighbours, ib + 1)
    ensures Agrees(counts[..], boxes, 64 * ib + 64)
  {
    BlockIndexBound(cx, cy, cz, px, py, pz);
    var blk := DecompressLanes(data[ib]);
    DecompressedHolds(data, cx, cy, cz, alive, px, py, pz, ib);
    var b := Bytes(blk);
    ghost var before := counts[..];
    BoxesFit(blk, boxes, before, cx, cy, cz, alive, px, py, pz, ib, b);
    SubtractBlock(counts, 64 * ib, b);
    NeighboursNext(blk, boxes, before, counts[..], cx, cy, cz, alive, px, py, pz, ib, b);
  }

  /** The decompressed block number `ib`, at `(px, py, pz)`, holds its
      cells. */
  lemma DecompressedHolds(data: seq<Word64>, cx: nat, cy: nat, cz: nat, alive: (int, int, int) -> bool,
                          px: nat, py: nat, pz: nat, ib: nat)
    requires Encodes(data, cx, cy, cz, alive) && InBlocks(cx, cy, cz, px, py, pz) && ib == BlockIndex(cx, cy, px, py, pz)
    ensures ib < |data| && BlockHolds(DecompressLanes(data[ib]), alive, Cells, px, py, pz)
  {
    BlockLanes(data, cx, cy, cz, alive, px, py, pz, ib);
    var blk := Decompressed(data, ib);
    assert blk == DecompressLanes(data[ib]);
    assert forall i :: 0 <= i < 8 ==> WordHolds(blk[i], alive, Cells, px, py, pz, i);
  }

  /** The remove-self loop of `count_neighbors_separable_m`: every counter
      goes from the live cells of its 3x3x3 box to those of its 26
      neighbours, by subtracting the cell's own byte, block after block. */
  method RemoveSelf(data: seq<Word64>, counts: array<nat>, cx: nat, cy: nat, cz: nat, ghost alive: (int, int, int) -> bool)
    requires Encodes(data, cx, cy, cz, alive) && counts.Length == 64 * |data|
    requires Holds(counts[..], cx, cy, cz, alive, Boxes, BlockCount(cx, cy, cz))
    modifies counts
    ensures Holds(counts[..], cx, cy, cz, alive, Neighbours, BlockCount(cx, cy, cz))
  {
    ghost var boxes := counts[..];
    FirstBlock(cx, cy, cz);
    ghost var px, py, pz := 0, 0, 0;
    var ic := 0;
    for ib := 0 to |data|
      invariant ic == 64 * ib
      invariant ib < |data| ==> InBlocks(cx, cy, cz, px, py, pz) && BlockIndex(cx, cy, px, py, pz) == ib
      invariant Holds(counts[..], cx, cy, cz, alive, Neighbours, ib)
      invariant Agrees(counts[..], boxes, 64 * ib)
    {
      RemoveSelfBlock(data, counts, cx, cy, cz, ib, px, py, pz, alive, boxes);
      ic := ic + 64;
      if ib + 1 < |data| {
        NextBlock(cx, cy, cz, px, py, pz);
      }
      px := px + 1;
      if px >= cx {
        px := 0;
        py := py + 1;
        if py >= cy {
          py := 0;
          pz := pz + 1;
        }
      }
    }
  }

  /** `count_neighbors_separable_m` on a grid of `sx * sy * sz` cells: the
      block counts are the sizes divided by 4 rounded up, then come the X, Y
      and Z passes and the removal of the cell itself.  Every counter holds
      the live cells among the 26 neighbours of its cell, cells off the grid
      dead whatever `default` says. */
  method SeparableM(data: seq<Word64>, sx: nat, sy: nat, sz: nat, default: bool,
                    ghost alive: (int, int, int) -> bool) returns (counts: array<nat>)
    requires Encodes(data, (sx + 3) / 4, (sy + 3) / 4, (sz + 3) / 4, alive)
    ensures fresh(counts)
    ensures counts.Length == 64 * |data|
    ensures Holds(counts[..], (sx + 3) / 4, (sy + 3) / 4, (sz + 3) / 4, alive, Neighbours, |data|)
  {
    var cx, cy, cz := (sx + 3) / 4, (sy + 3) / 4, (sz + 3) / 4;
    var capacity := cx * cy * cz * 64;
    MulIsProduct(cz, cy);
    MulIsProduct(Mul(cz, cy), cx);
    assert capacity == 64 * |data|;
    counts := new nat[capacity](_ => 0);
    var counts2 := new nat[capacity](_ => 0);
    AccX(data, counts, cx, cy, cz, alive);
    AccY(counts[..], counts2, cx, cy, cz, alive);
    AccZ(counts2[..], counts, cx, cy, cz, alive);
    RemoveSelf(data, counts, cx, cy, cz, alive);
  }

  /** No counter of any pass exceeds 27, so the `u8` lanes never
      overflow; the final counts are at most 26. */
  lemma CountsFitBytes(buf: seq<nat>, cx: nat, cy: nat, cz: nat, alive: (int, int, int) -> bool, stage: Stage)
    requires Holds(buf, cx, cy, cz, alive, stage, BlockCount(cx, cy, cz))
    ensures forall px: nat, py: nat, pz: nat, i: nat, k: nat {:trigger Slot(cx, cy, px, py, pz, i, k)} ::
      InBlocks(cx, cy, cz, px, py, pz) && i < 8 && k < 8 ==>
        && Slot(cx, cy, px, py, pz, i, k) < |buf|
        && buf[Slot(cx, cy, px, py, pz, i, k)] <= (if stage == Neighbours then 26 else 27)
  {
    forall px: nat, py: nat, pz: nat, i: nat, k: nat | InBlocks(cx, cy, cz, px, py, pz) && i < 8 && k < 8
      ensures Slot(cx, cy, px, py, pz, i, k) < |buf|
      ensures buf[Slot(cx, cy, px, py, pz, i, k)] <= (if stage == Neighbours then 26 else 27)
    {
      BlockIndexBound(cx, cy, cz, px, py, pz);
      BoxMoore3(alive, CellX(px, k), CellY(py, i, k), CellZ(pz, i));
    }
  }
}
