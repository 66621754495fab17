# cytogon in Dafny

A model of the cellular-automaton engine of cytogon, and of the code around it. The model covers three generations of the code:

- the `cytogon` crate, with rule bitsets, bit-packed 2D and 3D grids, the separable 3D neighbour counter and the synchronous rule step;
- the older `cellular` crate, whose `Vec<bool>` grids smooth in place in raster order;
- the first prototype in `src/main.rs`.

It also covers the two surface extractors (`build_mesh` in the viewer, `rebuild_mesh` in `uscope`) and the text exporters of the prototype, `mkave` and `cytogon-bin`.

Each source file keeps its own form:

- Code that mutates state becomes classes and methods. The grid classes hold their `data` buffers as fields. The counters work on `array`s. The exporters and mesh builders run their loops with invariants.
- Pure code becomes functions and lemmas.

Every method is proved against a specification function. The specification functions are:

- `Step2`/`Step3` for the textbook birth/survive step;
- `Moore8`/`Moore26` for neighbour counts;
- `Smoothed2`/`Smoothed3` for an in-place raster pass;
- `Lines2`/`Lines3` for the text layouts;
- `AllFaces` with `Quads`/`Normals` for the face list.

Lemmas then prove properties of those functions.

Conventions:

- Machine words are sequences of bits, least significant first (module `Words`).
- Byte lanes of a `u64` are sequences of eight `nat`s.
- A panic is the `Panic` case of `Outcome` where the source panics on its caller's input: `from_bits`, the range and slice constructors, and `size - 1` on a grid with an empty axis, which underflows in a debug build. It is a `requires` where the source panics only on a broken invariant (a grid read before `fill`, mesh preconditions).
- The 3D grid is modelled at every size, as `resolve` is written. Its block strides are `size / 4`, rounded down, while `get_bitblock_count` and the neighbour counter round up. When a size is not a multiple of 4, several cells share a bit, and the counter also sees the padding bits past the grid that `fill` sets. The cell-level promises (one cell per bit, the textbook step) are proved for sizes that are multiples of 4, and the bit-level ones for every size.

Modules: `Words`, `Lattice`, `CytogonRules`, `BlockDecompress`, `SeparableCount`, `CytogonGrid2`, `CytogonGrid3`, `FullGridSmooth`, `Cellular`, `Generations`, `Prototype`, `Export`, `FaceMesh`, `Uscope`.

## Model

| member | source | states |
|---|---|---|
| Words.SetRange | cytogon/src/lib.rs:115-124 | the range loop `bits \|= 1 << b` for `b` in `lo..hi`, started from 0, yields exactly the bits `lo..hi` |
| Words.FoldBits | cytogon/src/lib.rs:137-147 | the `fold` of the array constructors puts element `i` on bit `i` and leaves the bits above the input clear |
| Words.SpanValue | cytogon/src/lib.rs:61-67 | a word whose set bits are `lo..hi` has the value `2^hi - 2^lo`; this is how the hexadecimal masks are read |
| Lattice.Resize | cytogon/src/lib.rs:227-234 | `Vec::resize` keeps the first `n` elements and fills the rest with the given value; the result has length `n` |
| Lattice.DivCeil | cytogon/src/lib.rs:1073-1075 | `div_ceil`: the result times `d` is at least `a` and below `a + d` |
| Lattice.Index2Bound | cellular/src/lib.rs:24-31 | the row-major index `y * size.x + x` of an in-grid cell is below `size.x * size.y` |
| Lattice.Index2Injective | cellular/src/lib.rs:24-31 | two cells with the same row-major index are the same cell |
| Lattice.CountingLoop2 | cellular/src/lib.rs:68-81 | the loop over the 3x3 window, rows then columns, skipping the centre, counts exactly the 8 Moore neighbours |
| Lattice.CountingLoop3 | cellular/src/lib.rs:170-186 | the loop over the 3x3x3 box, skipping the centre, counts exactly the 26 Moore neighbours |
| Lattice.WindowMoore2 | cellular/src/lib.rs:68-81 | the 3x3 window minus its centre is the Moore count, and the count is at most 8 |
| Lattice.BoxMoore3 | cellular/src/lib.rs:170-186 | the 3x3x3 box minus its centre is the Moore count, and the count is at most 26 |
| CytogonRules.TopMaskValues | cytogon/src/lib.rs:61-67 | the masks `from_bits` tests are `0xFE00` (2D) and `0xF800_0000` (3D) |
| CytogonRules.FromBits2 | cytogon/src/lib.rs:61-67 | `from_bits` panics exactly when a bit of `0xFE00` (a count above 8) is set; otherwise it keeps the bits |
| CytogonRules.ValidMeaning2 | cytogon/src/lib.rs:61-67 | a 2D bitset passes the check exactly when no count from 9 to 15 is set |
| CytogonRules.ValidValue2 | cytogon/src/lib.rs:84-86 | a 2D bitset passes `from_bits` exactly when `to_bits()` is below `0x200` |
| CytogonRules.FromBitsInvalid2 | cytogon/src/lib.rs:1293-1297 | `from_bits(0xFFFF)` panics, while `From<u16>` takes the same value unchecked and yields an invalid bitset |
| CytogonRules.RuleBitset2.OrWith | cytogon/src/lib.rs:74-76 | a count is in the union exactly when it is in either operand; two valid bitsets give a valid union; the `\|` operator (lines 162-169) is the same OR |
| CytogonRules.RuleBitset2.ToArray | cytogon/src/lib.rs:93-105 | `to_array()[n]` is bit `n`, for `n` in 0..9 |
| CytogonRules.FromRange2 | cytogon/src/lib.rs:115-124 | `From<Range>` panics exactly when `end > 8`; otherwise it sets exactly the bits `start..end`, and the result is valid |
| CytogonRules.FromRangeInclusive2 | cytogon/src/lib.rs:126-135 | `From<RangeInclusive>` panics exactly when `end > 8`; otherwise it sets exactly the bits `start..=end`, and the result is valid |
| CytogonRules.FromArray2 | cytogon/src/lib.rs:137-147 | `From<[bool; 9]>` puts element `n` on bit `n`; `to_array` gives the array back, and the result is valid |
| CytogonRules.FromSlice2 | cytogon/src/lib.rs:149-160 | `From<&[bool]>` panics exactly for slices longer than 9; otherwise element `n` becomes bit `n` and the rest stays clear |
| CytogonRules.ArrayRoundTrip2 | cytogon/src/lib.rs:93-105 | `From(r.to_array()) == r` holds exactly for the bitsets that pass `from_bits` |
| CytogonRules.RuleBitset2Literal | cytogon/src/lib.rs:1260-1266 | `0x01F0` is accepted by `from_bits` and its array is counts 4 to 8 |
| CytogonRules.RuleBitset2Ranges | cytogon/src/lib.rs:1268-1290 | `1..4`, `2..=7` and their union are the bitsets `from_bits` builds from `0xE`, `0xFC` and `0xFE` |
| CytogonRules.Smooth2Bits | cytogon/src/lib.rs:181-185 | the 2D preset's values are `0x1E0` for birth and `0x1F0` for survival |
| CytogonRules.Smooth2Counts | cytogon/src/lib.rs:181-185 | both halves of the 2D preset pass `from_bits`; birth is at 5 to 8 neighbours and survival at 4 to 8 |
| CytogonRules.Smooth2FromRanges | cytogon/src/lib.rs:1299-1307 | the rule built from the ranges `5..=8` and `4..=8` is `Rule2::SMOOTH` |
| CytogonRules.FromBits3 | cytogon/src/lib.rs:379-385 | `from_bits` panics exactly when a bit of `0xF800_0000` (a count above 26) is set; otherwise it keeps the bits |
| CytogonRules.ValidMeaning3 | cytogon/src/lib.rs:379-385 | a 3D bitset passes the check exactly when no count from 27 to 31 is set |
| CytogonRules.ValidValue3 | cytogon/src/lib.rs:402-404 | a 3D bitset passes `from_bits` exactly when `to_bits()` is below `0x800_0000` |
| CytogonRules.FromBitsInvalid3 | cytogon/src/lib.rs:1344-1348 | `from_bits(0xFFFF_FFFF)` panics, while `From<u32>` takes the same value unchecked |
| CytogonRules.RuleBitset3.OrWith | cytogon/src/lib.rs:392-394 | a count is in the union exactly when it is in either operand; two valid bitsets give a valid union; the `\|` operator (lines 498-505) is the same OR |
| CytogonRules.RuleBitset3.ToArray | cytogon/src/lib.rs:411-441 | `to_array()[n]` is bit `n`, for `n` in 0..27 |
| CytogonRules.FromRange3 | cytogon/src/lib.rs:451-460 | `From<Range>` panics exactly when `end > 27`; otherwise it sets exactly the bits `start..end`, and the result is valid |
| CytogonRules.FromRangeInclusive3 | cytogon/src/lib.rs:462-471 | as written: panics exactly when `end > 27`; otherwise it sets exactly the bits `start..=end` |
| CytogonRules.InclusiveRangeReachesBit27 | cytogon/src/lib.rs:462-471 | `0..=27` passes the assert, yet it sets bit 27, which `from_bits` rejects |
| CytogonRules.FromRangeInclusive3Checked | cytogon/src/lib.rs:462-471 | with the bound `end <= 26` that the other constructors keep, every result passes `from_bits` |
| CytogonRules.FromArray3 | cytogon/src/lib.rs:473-483 | `From<[bool; 27]>` puts element `n` on bit `n`; `to_array` gives the array back, and the result is valid |
| CytogonRules.FromSlice3 | cytogon/src/lib.rs:485-496 | `From<&[bool]>` panics exactly for slices longer than 27; otherwise element `n` becomes bit `n` and the rest stays clear |
| CytogonRules.ArrayRoundTrip3 | cytogon/src/lib.rs:411-441 | `From(r.to_array()) == r` holds exactly for the bitsets that pass `from_bits` |
| CytogonRules.RuleBitset3Literal | cytogon/src/lib.rs:1311-1313 | `0xFF00` is accepted by `from_bits` |
| CytogonRules.RuleBitset3Ranges | cytogon/src/lib.rs:1318-1341 | `3..7`, `23..=26` and their union are the bitsets `from_bits` builds from `0x78`, `0x780_0000` and `0x780_0078` |
| CytogonRules.Smooth3Bits | cytogon/src/lib.rs:517-521 | the 3D preset's values are `0xE_6000` for birth and `0x7FF_E000` for survival |
| CytogonRules.Smooth3Counts | cytogon/src/lib.rs:517-521 | both halves of the 3D preset pass `from_bits`; birth is at 13, 14, 17, 18 or 19 neighbours and survival at 13 to 26 |
| CytogonRules.Smooth3FromRanges | cytogon/src/lib.rs:1350-1357 | the rule built from `(13..=14) \| (17..=19)` and `13..=26` is `Rule3::SMOOTH` |
| BlockDecompress.BitToByteSpreads | cytogon/src/lib.rs:706-726 | for `b < 256`, byte `k` of `bit_to_byte(b)` is bit `k` of `b`, as 0 or 1 |
| BlockDecompress.ReplicateDiagonals | cytogon/src/lib.rs:706-711 | the shift-or replication `b \| b << 8`, then `<< 16`, then `<< 32`, puts bit `k` of a byte on bit `9k`, the one bit of byte `k` that the mask `0x8040201008040201` keeps |
| BlockDecompress.GatherDiagonals | cytogon/src/lib.rs:716-724 | the gather step moves bit `9k` to bit `8k` and sets nothing else |
| BlockDecompress.DecompressSpreads | cytogon/src/lib.rs:732-744 | word `i` of `decompress_block(b)` spreads byte `i` of `b` |
| BlockDecompress.DecompressBytes | cytogon/src/lib.rs:732-744 | byte `8i + k` of the 64-byte output is bit `8i + k` of the block, as 0 or 1 |
| SeparableCount.BlockSteps | cytogon/src/lib.rs:928-940 | the neighbours along X, Y and Z of a block are 1, `cx` and `cx * cy` block numbers away |
| SeparableCount.NextBlock | cytogon/src/lib.rs:932-940 | the `bpos` counter advances X first, then wraps into Y, then into Z, in step with the block number |
| SeparableCount.BlockIndexBound | cytogon/src/lib.rs:884-942 | every block position in range has a number below the block count |
| SeparableCount.BlockIndexInjective | cytogon/src/lib.rs:884-942 | different block positions have different numbers |
| SeparableCount.BlockLanes | cytogon/src/lib.rs:890-893 | the decompressed block at a position has 1 in byte `k` of word `i` exactly for a live cell |
| SeparableCount.XRows | cytogon/src/lib.rs:894-901 | the in-block X step adds the bytes before and after each byte of a row |
| SeparableCount.XFromLeft | cytogon/src/lib.rs:905-914 | the fixup from the block before along X adds its `x = 3` column to `x = 0` |
| SeparableCount.XFromRight | cytogon/src/lib.rs:916-925 | the fixup from the block after along X adds its `x = 0` column to `x = 3` |
| SeparableCount.XLaneRow | cytogon/src/lib.rs:894-925 | after the X pass a counter holds the live cells of the row of three around its cell, off-grid cells dead |
| SeparableCount.XCounts | cytogon/src/lib.rs:890-929 | the 64 counters of a block after the X pass are the rows of three around each cell |
| SeparableCount.AccX | cytogon/src/lib.rs:884-942 | `acc_x` leaves, in every counter of every block, the row of three around its cell; the rest of `counts` is untouched |
| SeparableCount.YRows | cytogon/src/lib.rs:953-968 | the in-block Y step shifts rows `y + 1` and `y - 1` into place and adds them |
| SeparableCount.YFromDown | cytogon/src/lib.rs:975-984 | the fixup from the block before along Y adds its row `y = 3` to row `y = 0` |
| SeparableCount.YFromUp | cytogon/src/lib.rs:985-994 | the fixup from the block after along Y adds its row `y = 0` to row `y = 3` |
| SeparableCount.YLanePlane | cytogon/src/lib.rs:953-997 | after the Y pass a counter holds the live cells of the 3x3 square of its layer around its cell |
| SeparableCount.AccY | cytogon/src/lib.rs:944-1011 | `acc_y` turns the rows of three into the 3x3 squares for every counter; the rest of `dst` is untouched |
| SeparableCount.ZRows | cytogon/src/lib.rs:1022-1030 | the in-block Z step adds the words two before and two after |
| SeparableCount.ZLaneBox | cytogon/src/lib.rs:1022-1052 | after the Z pass a counter holds the live cells of the 3x3x3 box around its cell |
| SeparableCount.AccZ | cytogon/src/lib.rs:1013-1069 | `acc_z` turns the squares into the 3x3x3 boxes for every counter; the rest of `dst` is untouched |
| SeparableCount.SubtractBlock | cytogon/src/lib.rs:1088-1095 | `counts[ic + i] -= b[i]` for the 64 bytes of a block, with no `u8` underflow |
| SeparableCount.BoxesFit | cytogon/src/lib.rs:1088-1095 | each cell's own byte is at most its box count, so the subtraction never underflows |
| SeparableCount.NewSlot | cytogon/src/lib.rs:1088-1095 | a box count minus the cell's own byte is the number of live cells among its 26 neighbours |
| SeparableCount.RemoveSelf | cytogon/src/lib.rs:1088-1095 | the remove-self loop turns every box count into the 26-neighbour count |
| SeparableCount.SeparableM | cytogon/src/lib.rs:1072-1098 | `count_neighbors_separable_m` returns 64 counters per block; slot `64 * block + bit` of a cell holds its live 26 neighbours, off-grid cells dead, whatever `default` is |
| SeparableCount.CountsFitBytes | cytogon/src/lib.rs:1072-1098 | no counter of any pass exceeds 27, so the byte lanes never overflow; the final counts are at most 26 |
| CytogonGrid2.Grid2.constructor | cytogon/src/lib.rs:213-215 | a new grid has the given size and no blocks |
| CytogonGrid2.CountCovers | cytogon/src/lib.rs:222-224 | `get_bitblock_count` blocks of 64 bits cover the `size.x * size.y` cells |
| CytogonGrid2.BlockInRange | cytogon/src/lib.rs:249-259 | the block `index >> 6` of an in-grid cell is below `get_bitblock_count(size)` |
| CytogonGrid2.Grid2.Fill | cytogon/src/lib.rs:227-234 | `fill` resizes `data` to the block count, keeps the existing blocks, and sets the new ones to all ones or all zeros; on an empty grid every cell becomes `value` |
| CytogonGrid2.Grid2.Cell | cytogon/src/lib.rs:249-259 | `cell` is `None` exactly off the grid; otherwise it is the cell's state |
| CytogonGrid2.Grid2.SetCell | cytogon/src/lib.rs:261-273 | off the grid nothing changes; otherwise only bit `index & 63` of word `index >> 6` changes, so a later `cell` reads the value back |
| CytogonGrid2.RepresentsUpdate2 | cytogon/src/lib.rs:261-273 | setting that one bit is setting that one cell |
| CytogonGrid2.Grid2.CountNeighbors | cytogon/src/lib.rs:313-328 | the count is the number of live cells among the 8 neighbours, off-grid cells counted as `default` |
| CytogonGrid2.Grid2.StepCell | cytogon/src/lib.rs:285-302 | one cell of the rule loop takes its next state from the pre-step clone |
| CytogonGrid2.Grid2.ApplyRule | cytogon/src/lib.rs:275-305 | `apply_rule` panics exactly when a size is 0 (`size - 1`), before any change; otherwise it is the synchronous step: every cell becomes `survive[c]` if alive and `birth[c]` if dead, where `c` is its neighbour count in the grid before the step |
| CytogonGrid2.ProgressEnd | cytogon/src/lib.rs:285-302 | once the loops are done, every cell holds its next state |
| CytogonGrid3.Grid3.constructor | cytogon/src/lib.rs:553-555 | a new grid has the given size and no blocks |
| CytogonGrid3.Resolve | cytogon/src/lib.rs:589-607 | `resolve` is `None` exactly off the grid; the bit is below 64 |
| CytogonGrid3.BitFields | cytogon/src/lib.rs:589-607 | the bit is `(x & 3) \| (y & 3) << 2 \| (z & 3) << 4`, and the position can be read back from the block and the bit |
| CytogonGrid3.CountIsLattice | cytogon/src/lib.rs:562-564 | at every size `div_ceil(4)` is `(size + 3) / 4`, and `get_bitblock_count` is the number of blocks of the rounded-up lattice the neighbour counter walks |
| CytogonGrid3.CountIsBlocks | cytogon/src/lib.rs:562-564 | when the sizes are multiples of 4, `div_ceil(4)` is plain division and `get_bitblock_count` is the product of the three block counts |
| CytogonGrid3.ResolveInRange | cytogon/src/lib.rs:589-607 | at every size the block `resolve` gives an in-grid cell is below `get_bitblock_count` (line 563), so `data[index]` never overruns a filled grid; `index * 64 + bit` splits back into that block and bit |
| CytogonGrid3.ResolveInjective | cytogon/src/lib.rs:589-607 | when the sizes are multiples of 4, two in-grid cells with the same block and bit are the same cell |
| CytogonGrid3.CellBitInjective | cytogon/src/lib.rs:589-607 | the same for the counter slots `index * 64 + bit` |
| CytogonGrid3.ResolveOrigin | cytogon/src/lib.rs:1378 | the origin resolves to block 0, bit 0 |
| CytogonGrid3.ResolveOne | cytogon/src/lib.rs:1379 | `(1, 1, 1)` resolves to block 0, bit 21 |
| CytogonGrid3.ResolveX4 | cytogon/src/lib.rs:1380 | `(4, 0, 0)` resolves to block 1, bit 0 |
| CytogonGrid3.ResolveFour | cytogon/src/lib.rs:1381 | `(4, 4, 4)` resolves to block 7, bit 0 |
| CytogonGrid3.ResolveSeven | cytogon/src/lib.rs:1382 | `(7, 7, 7)` resolves to block 7, bit 63 |
| CytogonGrid3.ResolveAliases | cytogon/src/lib.rs:599-601 | as written, on a grid of 5, 6 or 7 cells per axis the cells `(4, 0, 0)`, `(0, 4, 0)` and `(0, 0, 4)` all resolve to bit 0 of block 1 |
| CytogonGrid3.ResolveCeil | cytogon/src/lib.rs:589-607 | `resolve` with the strides rounded up is `None` exactly off the grid, and its bit is below 64 |
| CytogonGrid3.ResolveCeilExact | cytogon/src/lib.rs:562-564 | with the strides rounded up as `get_bitblock_count` rounds them, every in-grid cell of a grid of any size gets a block below the count and a block and bit no other cell has |
| CytogonGrid3.ResolveCeilAgrees | cytogon/src/lib.rs:589-607 | when the sizes are multiples of 4, the rounded-up `resolve` is `resolve` |
| CytogonGrid3.Grid3.Fill | cytogon/src/lib.rs:567-574 | `fill` resizes `data` to the block count, keeps the existing blocks, and sets the new ones to all ones or all zeros, padding bits included; on a grid without blocks every cell becomes `value` |
| CytogonGrid3.Grid3.Cell | cytogon/src/lib.rs:614-621 | `cell` is `None` exactly off the grid; otherwise it is the cell's state, the bit `resolve` gives it |
| CytogonGrid3.Grid3.SetCell | cytogon/src/lib.rs:623-632 | off the grid nothing changes; otherwise only the resolved bit of the resolved block changes, so every in-grid cell that resolves to that bit reads `value`; when the sizes are multiples of 4 that is the cell alone |
| CytogonGrid3.RepresentsUpdate | cytogon/src/lib.rs:623-632 | setting that one bit sets every in-grid cell that resolves to it, and no other |
| CytogonGrid3.SetBitIsUpdate | cytogon/src/lib.rs:623-632 | when the sizes are multiples of 4, setting the bit of a cell is setting that cell alone |
| CytogonGrid3.Grid3.CountNeighborsSingle | cytogon/src/lib.rs:1222-1238 | the count is the number of live cells among the 26 neighbours, off-grid cells counted as `default` |
| CytogonGrid3.LatticeEncodes | cytogon/src/lib.rs:1072-1098 | the separable counter reads any blocks as the cells of the rounded-up lattice of `(size + 3) / 4` blocks per axis, the padding cells past the grid included |
| CytogonGrid3.LatticeCounts | cytogon/src/lib.rs:1072-1098 | the counter at every slot is the number of live lattice cells among the 26 neighbours of that slot's cell, cells outside the lattice dead |
| CytogonGrid3.LatticeIsGrid | cytogon/src/lib.rs:1072-1098 | when the sizes are multiples of 4, the lattice is the grid, with dead cells around it |
| CytogonGrid3.SlotOfCell | cytogon/src/lib.rs:667-668 | when the sizes are multiples of 4, the slot `index * 64 + offset` that `apply_rule_ref` reads for a cell is the counter of that very cell |
| CytogonGrid3.LatticeCountAtCell | cytogon/src/lib.rs:667-668 | when the sizes are multiples of 4, the counter at a cell's slot is its live 26-neighbour count, off-grid cells dead |
| CytogonGrid3.Grid3.CountNeighbors | cytogon/src/lib.rs:688-699 | `count_neighbors` returns 64 counters per block, at every size the lattice count of each slot; when the sizes are multiples of 4, the counter at each in-grid cell's `resolve` slot is its live 26-neighbour count with off-grid cells dead, whatever `default` is |
| CytogonGrid3.CountsAtCells | cytogon/src/lib.rs:688-699 | when the sizes are multiples of 4, the block-ordered counters give each in-grid cell its 26-neighbour count at its `resolve` slot |
| CytogonGrid3.ReplayedCell | cytogon/src/lib.rs:665-674 | one iteration sets the bit of `(i, j, k)` to the rule's verdict on that bit and its slot's count: that slot gets the rule once more, every other slot stays |
| CytogonGrid3.ReplayedEnd | cytogon/src/lib.rs:656-677 | after the loops every bit is its old bit with the rule applied once per in-grid cell that resolves to it |
| CytogonGrid3.HitsOnce | cytogon/src/lib.rs:656-677 | when the sizes are multiples of 4, the loops set the bit of each in-grid cell exactly once |
| CytogonGrid3.ReplayIsStep | cytogon/src/lib.rs:646-679 | when the sizes are multiples of 4, applying the rule once per cell with the counts taken before the loops is the textbook synchronous step |
| CytogonGrid3.Grid3.StepCell | cytogon/src/lib.rs:661-676 | one cell of the rule loop reads its bit as the loops left it and its count from before the step, and the replay moves on by one cell |
| CytogonGrid3.Grid3.ApplyRuleRef | cytogon/src/lib.rs:646-679 | `apply_rule_ref` panics exactly when a size is 0 (`size - 1`), before any change; otherwise every bit ends as its old bit with the rule applied once per in-grid cell that resolves to it, each time with the count of its slot taken before the step; when the sizes are multiples of 4 that is the synchronous birth/survive step of every cell |
| CytogonGrid3.Grid3.ApplyRule | cytogon/src/lib.rs:634-643 | `apply_rule` is `apply_rule_ref`, with the same panic and the same step |
| FullGridSmooth.FullNeighbours | cytogon/src/lib.rs:1537-1598 | on a grid alive throughout, a cell on 0, 1, 2 or 3 faces has 26, 17, 11 or 7 live neighbours |
| FullGridSmooth.SmoothFullStep | cytogon/src/lib.rs:1537-1598 | one `SMOOTH` step on a grid alive throughout kills exactly the cells lying on two or more faces |
| FullGridSmooth.SmoothFullGrid | cytogon/src/lib.rs:1537-1598 | the tests `smooth3_4x4x4` and `smooth3_8x8x8`: the grid has 1 or 8 blocks, and after one step a cell is dead exactly when it lies on two or more faces |
| Generations.SmoothRule2 | cellular/src/lib.rs:43-66 | the `cellular` 2D rule (alive above 4, dead below 4, unchanged at 4) gives every cell the same next state as `Rule2::SMOOTH` |
| Generations.SmoothRule3 | cellular/src/lib.rs:139-168 | the `cellular` 3D rule gives every cell the same next state as `Rule3::SMOOTH` |
| Cellular.Grid2.constructor | cellular/src/lib.rs:10-12 | a new grid has the given size and no cells |
| Cellular.Grid2.Fill | cellular/src/lib.rs:14-17 | `fill` resizes `data` to `size.x * size.y`, keeping existing entries |
| Cellular.Grid2.Cell | cellular/src/lib.rs:24-31 | `cell` is `None` exactly off the grid; otherwise it is entry `y * size.x + x` |
| Cellular.Grid2.CellMut | cellular/src/lib.rs:34-41 | `cell_mut` is `None` exactly off the grid; otherwise it points at entry `y * size.x + x` |
| Cellular.Grid2.Put | cellular/src/lib.rs:60-62 | the write `*cell = value` through `cell_mut` changes entry `y * size.x + x` and nothing else |
| Cellular.CellsBelow2 | cellular/src/lib.rs:24-31 | the entry of an in-grid cell is below `size.x * size.y` |
| Cellular.StoresUpdate2 | cellular/src/lib.rs:34-41 | writing through `cell_mut` changes exactly that cell |
| Cellular.Grid2.CountNeighbors | cellular/src/lib.rs:68-81 | the count is the number of live cells among the 8 neighbours, off-grid cells counted as `default` |
| Cellular.Grid2.CountRow | cellular/src/lib.rs:71-79 | one row of the window adds its live cells other than the centre, off-grid cells counted as `default` |
| Cellular.Grid2.SmoothCell | cellular/src/lib.rs:51-63 | one visited cell becomes alive above 4, dead below 4, and keeps its state at 4, counted on the grid as it is at that moment |
| Cellular.Grid2.Smooth | cellular/src/lib.rs:43-66 | `smooth` panics exactly when a size is 0 (`size - 1`), before any change; otherwise it is one in-place raster pass: each cell gets the rule applied to the grid as the loops left it, cells before it already updated |
| Cellular.SmoothingCell2 | cellular/src/lib.rs:51-63 | visiting one more cell extends the pass by that cell |
| Cellular.SmoothedUnique2 | cellular/src/lib.rs:43-66 | the in-place pass has exactly one outcome |
| Cellular.Grid3.constructor | cellular/src/lib.rs:90-92 | a new grid has the given size and no cells |
| Cellular.Grid3.Fill | cellular/src/lib.rs:94-97 | `fill` resizes `data` to `size.x * size.y * size.z`, keeping existing entries |
| Cellular.Grid3.Cell | cellular/src/lib.rs:104-119 | `cell` is `None` exactly off the grid; otherwise it is entry `(z * size.y + y) * size.x + x` |
| Cellular.Grid3.CellMut | cellular/src/lib.rs:122-137 | `cell_mut` is `None` exactly off the grid; otherwise it points at that entry |
| Cellular.Grid3.Put | cellular/src/lib.rs:157-165 | the write through `cell_mut` changes the cell's entry and nothing else |
| Cellular.Index3Injective | cellular/src/lib.rs:104-119 | distinct in-grid cells have distinct entries |
| Cellular.CellsBelow3 | cellular/src/lib.rs:104-119 | the entry of an in-grid cell is below the volume |
| Cellular.StoresUpdate3 | cellular/src/lib.rs:122-137 | writing through `cell_mut` changes exactly that cell |
| Cellular.Grid3.CountNeighbors | cellular/src/lib.rs:170-186 | the count is the number of live cells among the 26 neighbours, off-grid cells counted as `default` |
| Cellular.Grid3.CountRow | cellular/src/lib.rs:174-184 | one row of the box adds its live cells other than the centre, off-grid cells counted as `default` |
| Cellular.Grid3.SmoothCell | cellular/src/lib.rs:148-165 | a live cell stays alive with 13 or more neighbours; a dead one comes alive with 13, 14, 17, 18 or 19 |
| Cellular.Grid3.SmoothRow | cellular/src/lib.rs:145-164 | one row of the pass: each column in turn is smoothed on the grid as it stands, so the pass moves on to the next row |
| Cellular.Grid3.Smooth | cellular/src/lib.rs:139-168 | `smooth` panics exactly when a size is 0, before any change; otherwise it is one in-place raster pass, layers outermost, each cell seeing the cells before it already updated |
| Cellular.SmoothingCell3 | cellular/src/lib.rs:148-165 | visiting one more cell extends the pass by that cell |
| Cellular.SmoothedUnique3 | cellular/src/lib.rs:139-168 | the in-place pass has exactly one outcome |
| Cellular.MooreAgree3 | cellular/src/lib.rs:170-186 | grids that agree on every in-grid cell give the same count (off-grid cells dead) |
| Cellular.CentreGrid | cellular/src/lib.rs:207-210 | the test grid: 3x3x3, filled dead, then the centre set alive through `cell_mut` |
| Cellular.NeighborsAround | cellular/src/lib.rs:210-233 | at every one of the 27 positions, with the test's own case split: the centre has no live neighbour; every corner has 1, or 20 when off-grid cells count as alive; every edge centre 1, or 16; every face centre 1, or 10 |
| Prototype.CountWalls2 | src/main.rs:65-94 | at an interior position every read is in range and the count is the number of live cells among the 8 neighbours |
| Prototype.Smooth2 | src/main.rs:96-112 | `smooth2` is one in-place raster pass over the array |
| Prototype.SmoothCell2 | src/main.rs:99-109 | one visited entry becomes `true` on the border, and otherwise follows the rule above/below/at 4 |
| Prototype.WallBorder2 | src/main.rs:99-102 | after the pass every border cell is alive |
| Prototype.WallSmoothedUnique2 | src/main.rs:96-112 | the in-place pass has exactly one outcome |
| Prototype.Walls3 | src/main.rs:114-144 | the half-open ranges of `count_neighbor_walls3` count at most 7 |
| Prototype.CountWalls3 | src/main.rs:114-144 | as written: the count visits only the offsets -1 and 0 on each axis, and an off-range plane or row adds 1 once |
| Prototype.WallsLowerOctant3 | src/main.rs:114-144 | away from the low faces the count is the 7 cells of the lower octant |
| Prototype.FullGridWalls3 | src/main.rs:114-144 | on a grid alive throughout the count is 7, where the 26 neighbours number 26 |
| Prototype.CountWallsAll3 | src/main.rs:114-144 | the count over the closed ranges the comments describe: all 26 neighbours, off-grid ones counted as walls |
| Prototype.AllWalls3 | src/main.rs:114-144 | that count is 26 on a grid alive throughout |
| Prototype.RuleKills3 | src/main.rs:153-162 | with at most 7 counted, the rule of `smooth3` makes every cell it reaches dead |
| Prototype.Smooth3 | src/main.rs:146-167 | `smooth3` as written: one in-place raster pass over the array |
| Prototype.Smoothed3 | src/main.rs:146-167 | as written: every interior cell ends dead, the border of layer 0 ends alive, and the border cells of layers above 0 keep their old state |
| Prototype.Smooth3Layered | src/main.rs:149-151 | with the border written at its own layer's index, one in-place raster pass |
| Prototype.SmoothedLayered3 | src/main.rs:149-151 | with that fix, a cell ends alive exactly when it is on the border of its layer; the interior half rests on the as-written `count_neighbor_walls3` counting at most 7 |
| Prototype.UpperBorderKept3 | src/main.rs:149-151 | on a grid of two layers, the dead corner `(0, 0, 1)` stays dead as written, and becomes alive with the fix |
| Export.ExportTxt2 | src/main.rs:169-181 | the output is `Lines2(data, size.x)`: a glyph per cell in data order, and `'\n'` after every `size.x` cells; `mkave/src/main.rs:18-30` and `cytogon-bin/src/main.rs:26-38` are copies of it |
| Export.PushCell2 | src/main.rs:174-179 | one cell appends its glyph, then `'\n'` when the row counter reaches `size.x`, and the counter wraps |
| Export.Lines2Length | src/main.rs:169-181 | the output has `len + len / size.x` characters |
| Export.Lines2Strip | mkave/src/main.rs:18-30 | without its newlines, the output is the glyphs of the cells in data order |
| Export.ExportTxt3 | src/main.rs:183-201 | the output is `Lines3(data, size.x, size.y)`: as in 2D, plus an extra `'\n'` after every `size.y` rows; `mkave/src/main.rs:32-50` is a copy of it |
| Export.Lines3Length | mkave/src/main.rs:32-50 | the output has `len + len / size.x + len / (size.x * size.y)` characters |
| Export.Lines3Strip | mkave/src/main.rs:32-50 | without its newlines, the output is the glyphs of the cells in data order |
| Export.Lines3Cell | mkave/src/main.rs:36-37 | the `k`-th character that is not a newline is the glyph of `data[k]` |
| Export.GlyphsAt | src/main.rs:174 | the glyph of a cell is `'#'` when it is alive and `' '` when it is dead |
| Export.ExportBlocks3 | cytogon-bin/src/main.rs:40-61 | the output is `Lines3` of bits 0 to 62 of every block, with row and layer counters running on across blocks |
| Export.Bits63At | cytogon-bin/src/main.rs:45-47 | character `63n + b` of the cell list is `'#'` exactly when bit `b` of block `n` is set |
| Export.Bit63Unread | cytogon-bin/src/main.rs:45 | flipping bit 63 of any block leaves the output unchanged |
| FaceMesh.AllFacesExact | viewer/src/main.rs:315-422 | a face is in the list exactly when the cells on its two sides differ, off-grid cells dead, for every axis and every plane `0..=size` |
| FaceMesh.AxisFacesSound | viewer/src/main.rs:315-350 | every face one axis emits separates a live cell from a dead one |
| FaceMesh.AxisFacesComplete | viewer/src/main.rs:315-350 | every face of an axis that separates a live cell from a dead one, in the planes scanned, is emitted |
| FaceMesh.LowerOffGrid | viewer/src/main.rs:321-323 | in plane 0 the cell below is off the grid and reads as dead |
| FaceMesh.AllFacesDistinct | viewer/src/main.rs:315-422 | no face is emitted twice |
| FaceMesh.DeadGridNoFaces | viewer/src/main.rs:315-422 | an all-dead grid has no faces, and so no vertices |
| FaceMesh.Quads | viewer/src/main.rs:330-346 | every face pushes exactly 6 vertices |
| FaceMesh.CapacityBound | viewer/src/main.rs:309-313 | the vertex count never exceeds `((z + 1)xy + (y + 1)zx + (x + 1)zy) * 6` |
| FaceMesh.QuadCorners | viewer/src/main.rs:327-346 | the 6 vertices of a face are the corners of the unit square at its position spanning the two other axes |
| FaceMesh.QuadReversed | viewer/src/main.rs:330-346 | the "prev alive" and "cur alive" cases emit the same two triangles with reversed winding |
| FaceMesh.TangentsCross | viewer/src/main.rs:330-346 | the two edge directions of a face, taken in the order of the "prev alive" triangles, turn towards the face axis, and in the other order away from it |
| FaceMesh.QuadWinding | uscope/src/main.rs:449-465 | each triangle's `(v1 - v0) x (v2 - v0)` is the face normal |
| FaceMesh.NormalOutward | uscope/src/main.rs:448-465 | the normal is the unit step from the alive cell to the dead one |
| FaceMesh.FlatNormals | uscope/src/main.rs:449-472 | the three normals pushed with each triangle equal that triangle's cross product |
| FaceMesh.ReadFace | viewer/src/main.rs:319-325 | a face's position, `cur` and `prev`, off-grid cells reading as dead |
| FaceMesh.RowFacesStep | viewer/src/main.rs:326-348 | one inner-loop iteration adds a face exactly when `cur != prev` |
| FaceMesh.ScanAxis | viewer/src/main.rs:315-350 | one axis of `build_mesh` pushes the quads of that axis's faces in loop order |
| FaceMesh.BuildMesh | viewer/src/main.rs:303-426 | the vertices are the quads of the X faces, then Y, then Z |
| Uscope.Mesh.constructor | uscope/src/main.rs:387-392 | a mesh of the given topology and usage, without attributes |
| Uscope.PushFace | uscope/src/main.rs:449-472 | a face pushes 6 positions and 6 equal normals |
| Uscope.ScanFace | uscope/src/main.rs:440-474 | one inner-loop iteration appends a face's positions and normals exactly when `cur != prev` |
| Uscope.ScanAxis | uscope/src/main.rs:433-476 | one axis appends the positions and normals of its faces in loop order |
| Uscope.Surface | uscope/src/main.rs:433-563 | the positions are the quads of the faces, X then Y then Z, and the normals run alongside, so both lists have the same length |
| Uscope.RebuildMesh | uscope/src/main.rs:387-579 | requires a TriangleList mesh living in both worlds with position and normal attributes; removes indices and UVs, and replaces positions and normals by those of the surface, old contents discarded |

## Left out

- `cytogon/src/avx2.rs`: unfinished x86 intrinsics whose call sites are commented out.
- The random fills (`fill_rand` in all three crates): they draw `f32`s from a PRNG.
- `count_neighbors_popcnt_m`, `count_neighbors_separable_vn` and `count_neighbors_ref`: not reached by `apply_rule`. The first loads the neighbour blocks without using them, so it counts within each block only. The second rewrites the same slots, and the third covers only two layers.
- The `neighbors3` test of the `cytogon` crate: it indexes the block-ordered counts linearly and expects `default = true` behaviour that `count_neighbors_separable_m` ignores.
- `bit_to_byte`'s five literal checks (cytogon/src/lib.rs:1365-1372) are not restated one by one. `BitToByteSpreads` covers every byte.
- The `count_neighbors_separable` test (cytogon/src/lib.rs:1384-1496) is not restated scenario by scenario. `SeparableCount.SeparableM`'s contract covers its three scenarios.
- CytogonGrid3.Grid3.CountNeighbors: at sizes that are not multiples of 4 only the slot-by-slot lattice count is promised, since the counter there does not give a cell its own neighbour count.
- CytogonGrid3.Grid3.ApplyRuleRef: at sizes that are not multiples of 4 only the bit-level result is promised, since the loop there is not the textbook step.
- CytogonGrid3.Grid3: every member requires a filled grid (`get_bitblock_count` blocks). On a grid never filled, `cell` indexes past `data` and panics, a broken invariant rather than a caller's input.
- CytogonGrid2.Grid2.ApplyRule: a zero size is `Panic`, as in a debug build. In a release build `size - 1` wraps, and the loops run 2^32 times through `unwrap_or` without changing the empty grid. Cellular's `smooth` and the 3D `apply_rule_ref` panic in a debug build on the `size - 1` underflow (cellular/src/lib.rs:44-45 and 140-142; cytogon/src/lib.rs:650-652). In a release build the wrapped value lets the loops start, and they panic at their first `unwrap` on the empty grid (cellular/src/lib.rs:60 and 156; cytogon/src/lib.rs:666).
- Byte order: the counters read the `[u64; 8]` of `decompress_block` as 64 bytes, least significant first. That is what `bytemuck::cast_slice` gives on a little-endian target (cytogon/src/lib.rs:728-730); big-endian targets are not modelled.
- SeparableCount.SeparableM: the `default` argument is taken and ignored, as in the source. The counts are stated for the dead border the source uses.
- Prototype.CountWalls2: stated for interior positions only, where the source's eight tests read in range. `smooth2` only calls it there.
- Integer widths: indices are computed in `u32`/`i32` in the sources. The model uses unbounded integers, assuming no grid has 2^32 cells.
- Float vertex positions: vertices are integer lattice corners. The sources add the common translation `offset - 0.5` to every vertex, which the model drops.
- `with_computed_flat_normals` (viewer) is a foreign call. `FaceMesh.FlatNormals` states what it would compute for the model's positions. The viewer's `Mesh` is modelled as its position list.
- Buffer capacities (`with_capacity`, `reserve`) are not modelled. Only the vertex-count bound they suggest is proved.
- The border branch of `cellular`'s `smooth` (cellular/src/lib.rs:50-53 and 148-153) is guarded by a local `default` that is always `false`. The model keeps it as a branch proved unreachable.
- `rebuild_mesh`'s panics (`assert_eq!`, `unwrap`, `let ... else`) become `requires`. The `take`/`truncate`/`swap` buffer reuse is modelled as building fresh sequences and storing them.
- Bevy and egui (setup, UI systems, cameras, cube instancing), the `main` functions and the `trace` spans: they are rendering, I/O or instrumentation.

## Findings

| source | as written | input that shows it | evidently intended | confidence | as-written member | corrected member |
|---|---|---|---|---|---|---|
| cytogon/src/lib.rs:462-471 | `From<RangeInclusive<u8>>` for `RuleBitset3` asserts `end <= 27` | `0..=27` passes the assert and sets bit 27, which `from_bits` rejects | `end <= 26`, the bound every other 3D constructor keeps | not executed | CytogonRules.InclusiveRangeReachesBit27 | CytogonRules.FromRangeInclusive3Checked |
| src/main.rs:114-144 | `count_neighbor_walls3` loops over `(p - 1)..(p + 1)` | on a grid alive throughout, an interior cell counts 7, not 26 | the closed ranges `(p - 1)..=(p + 1)` minus the cell, as the comments say | not executed | Prototype.FullGridWalls3 | Prototype.CountWallsAll3 |
| src/main.rs:149-151 | `smooth3` writes border cells at `j * size.x + i`, the index in layer 0 | two layers, corner `(0, 0, 1)` dead: it stays dead | the border cell of every layer set alive; the corrected pass keeps the as-written `count_neighbor_walls3`, whose seven-cell count is what makes every interior cell dead | not executed | Prototype.UpperBorderKept3 | Prototype.SmoothedLayered3 |
| cytogon/src/lib.rs:599-601 | `resolve` strides blocks by `size / 4`, rounding down, while `get_bitblock_count` (line 563) and the neighbour counter round up | a 5x5x5 grid: `(4, 0, 0)`, `(0, 4, 0)` and `(0, 0, 4)` all resolve to bit 0 of block 1, so setting one sets all three | strides of `size.div_ceil(4)`, giving every cell a bit of its own | not executed | CytogonGrid3.ResolveAliases | CytogonGrid3.ResolveCeilExact |
