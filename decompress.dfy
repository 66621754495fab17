/** Decompression of the 3D grid's bit blocks into byte lanes.

    A 3D grid stores each 4x4x4 block of cells in one `u64`.  To count
    neighbours, a block is decompressed into 64 bytes, one per cell (byte
    `j` holds bit `j` as a `0` or a `1`), kept as eight `u64` words.  A word
    of bytes is modelled as its eight byte lanes; `LanesOf` reads them off
    the bits of the word. */
module BlockDecompress {
  import opened Words
  import opened Lattice

  // ------------------------------------------------------ decompression

  /** The mask `0x8040201008040201`: bit `9 * k` for each byte `k`, one bit
      per byte and a different one in each. */
  function Diagonal(): (m: Word64)
  {
    Or(Or(Or(Or(Or(Or(Or(Bit(64, 0), Bit(64, 9)), Bit(64, 18)), Bit(64, 27)),
      Bit(64, 36)), Bit(64, 45)), Bit(64, 54)), Bit(64, 63))
  }

  /** The first half of `bit_to_byte`: `x = b | b << 8`, then
      `x |= x << 16` and `x |= x << 32`. */
  function Replicate(b: Word64): (x: Word64)
  {
    var x1 := Or(b, Shl(b, 8));
    var x2 := Or(x1, Shl(x1, 16));
    Or(x2, Shl(x2, 32))
  }

  /** For `b < 256` the replication puts bit `k` of `b` on bit `9 * k`,
      where the diagonal mask looks for it. */
  lemma ReplicateDiagonal(b: Word64, k: nat)
    requires forall i :: 8 <= i < 64 ==> !b[i]
    requires k < 8
    ensures Replicate(b)[9 * k] == b[k]
  {
    if k == 0 {
    } else if k == 1 {
    } else if k == 2 {
    } else if k == 3 {
    } else if k == 4 {
    } else if k == 5 {
    } else if k == 6 {
    } else {
    }
  }

  /** The eight diagonal bits of the replicated byte, at once. */
  lemma ReplicateDiagonals(b: Word64)
    requires forall i :: 8 <= i < 64 ==> !b[i]
    ensures var x := Replicate(b);
      && x[0] == b[0] && x[9] == b[1] && x[18] == b[2] && x[27] == b[3]
      && x[36] == b[4] && x[45] == b[5] && x[54] == b[6] && x[63] == b[7]
  {
    ReplicateDiagonal(b, 0);
    ReplicateDiagonal(b, 1);
    ReplicateDiagonal(b, 2);
    ReplicateDiagonal(b, 3);
    ReplicateDiagonal(b, 4);
    ReplicateDiagonal(b, 5);
    ReplicateDiagonal(b, 6);
    ReplicateDiagonal(b, 7);
  }

  /** The second half of `bit_to_byte`: the bit `9 * k` of each byte is
      moved down by `k` and the eight results are ORed together. */
  function Gather(x: Word64): Word64
  {
    Or(Or(Or(Or(Or(Or(Or(
      Shr(And(x, Bit(64, 63)), 7),
      Shr(And(x, Bit(64, 54)), 6)),
      Shr(And(x, Bit(64, 45)), 5)),
      Shr(And(x, Bit(64, 36)), 4)),
      Shr(And(x, Bit(64, 27)), 3)),
      Shr(And(x, Bit(64, 18)), 2)),
      Shr(And(x, Bit(64, 9)), 1)),
      And(x, Bit(64, 0)))
  }

  /** `r` holds the bits of `b` one per byte: bit `j` of `r` is set exactly
      when `j` is a multiple of 8 and bit `j / 8` of `b` is. */
  predicate Spreads(r: Word64, b: Word64)
  {
    forall j :: 0 <= j < 64 ==> (r[j] <==> j % 8 == 0 && b[j / 8])
  }

  /** Bit `9 * k` of the input lands on bit `8 * k`, and nothing else is set. */
  lemma GatherDiagonals(x: Word64)
    ensures forall j :: 0 <= j < 64 ==> (Gather(x)[j] <==>
      (j == 0 && x[0]) || (j == 8 && x[9]) || (j == 16 && x[18]) || (j == 24 && x[27])
      || (j == 32 && x[36]) || (j == 40 && x[45]) || (j == 48 && x[54]) || (j == 56 && x[63]))
  {
  }

  /** A word whose bits are the diagonal bits of `x` moved to the low bit of
      each byte spreads `b` when those diagonal bits are the bits of `b`. */
  lemma DiagonalsSpread(r: Word64, x: Word64, b: Word64)
    requires forall j :: 0 <= j < 64 ==> (r[j] <==>
      (j == 0 && x[0]) || (j == 8 && x[9]) || (j == 16 && x[18]) || (j == 24 && x[27])
      || (j == 32 && x[36]) || (j == 40 && x[45]) || (j == 48 && x[54]) || (j == 56 && x[63]))
    requires x[0] == b[0] && x[9] == b[1] && x[18] == b[2] && x[27] == b[3]
    requires x[36] == b[4] && x[45] == b[5] && x[54] == b[6] && x[63] == b[7]
    ensures Spreads(r, b)
  {
    forall j | 0 <= j < 64
      ensures r[j] <==> j % 8 == 0 && b[j / 8]
    {
      var k, m := j / 8, j % 8;
      assert j == 8 * k + m;
      if k == 0 {
      } else if k == 1 {
      } else if k == 2 {
      } else if k == 3 {
      } else if k == 4 {
      } else if k == 5 {
      } else if k == 6 {
      } else {
      }
    }
  }

  /** After the diagonal mask, the replicated low byte of `b` has bit `k` of
      `b` on bit `9 * k`. */
  lemma MaskedDiagonals(b: Word64)
    requires forall i :: 8 <= i < 64 ==> !b[i]
    ensures var x := And(Replicate(b), Diagonal());
      && x[0] == b[0] && x[9] == b[1] && x[18] == b[2] && x[27] == b[3]
      && x[36] == b[4] && x[45] == b[5] && x[54] == b[6] && x[63] == b[7]
  {
    ReplicateDiagonals(b);
    DiagonalBits();
  }

  /** The mask has bit `9 * k` set for every byte `k`. */
  lemma DiagonalBits()
    ensures var m := Diagonal();
      m[0] && m[9] && m[18] && m[27] && m[36] && m[45] && m[54] && m[63]
  {
  }

  /** `bit_to_byte`: the low byte of `b` is copied into all eight bytes, the
      diagonal mask keeps bit `k` in byte `k`, and the eight bits are moved
      down to the lowest bit of their byte. */
  function BitToByte(b: Word64): Word64
  {
    Gather(And(Replicate(b), Diagonal()))
  }

  /** For `b < 256`, bit `k` of `b` becomes byte `k` of `bit_to_byte(b)`, as
      a `0` or a `1`. */
  lemma BitToByteSpreads(b: Word64)
    requires forall i :: 8 <= i < 64 ==> !b[i]
    ensures Spreads(BitToByte(b), b)
  {
    var x := And(Replicate(b), Diagonal());
    MaskedDiagonals(b);
    GatherDiagonals(x);
    DiagonalsSpread(Gather(x), x, b);
  }

  /** `decompress_block`: word `i` is `bit_to_byte` of byte `i` of `b`, cut
      out with the mask `0xFF << 8 * i` and shifted down by `8 * i`. */
  function DecompressBlock(b: Word64): (r: seq<Word64>)
    ensures |r| == 8
  {
    seq(8, i requires 0 <= i < 8 => BitToByte(Shr(And(b, Span(64, 8 * i, 8 * i + 8)), 8 * i)))
  }

  /** Byte `i` of `b`, shifted down to the low byte, has nothing above it. */
  lemma ByteInput(b: Word64, i: nat)
    requires i < 8
    ensures var c := Shr(And(b, Span(64, 8 * i, 8 * i + 8)), 8 * i);
      && (forall m :: 8 <= m < 64 ==> !c[m])
      && (forall k :: 0 <= k < 8 ==> c[k] == b[8 * i + k])
  {
  }

  /** Word `i` of the decompressed block spreads byte `i` of `b`. */
  lemma DecompressSpreads(b: Word64, i: nat)
    requires i < 8
    ensures var c := Shr(And(b, Span(64, 8 * i, 8 * i + 8)), 8 * i);
      Spreads(DecompressBlock(b)[i], c) && forall k :: 0 <= k < 8 ==> c[k] == b[8 * i + k]
  {
    ByteInput(b, i);
    BitToByteSpreads(Shr(And(b, Span(64, 8 * i, 8 * i + 8)), 8 * i));
  }

  // ------------------------------------------------------ byte lanes

  /** A `u64` seen as its eight bytes, least significant first, which is how
      `bytemuck` casts read it on a little-endian machine. */
  type Lanes = s: seq<nat> | |s| == 8 witness [0, 0, 0, 0, 0, 0, 0, 0]

  /** The bytes of a word. */
  function LanesOf(w: Word64): Lanes
  {
    seq(8, k requires 0 <= k < 8 => ToNat(w[8 * k .. 8 * k + 8]))
  }

  /** A byte whose only possible bit is its lowest is `0` or `1`. */
  lemma LowBitValue(s: seq<bool>)
    requires |s| >= 1
    requires forall m :: 1 <= m < |s| ==> !s[m]
    ensures ToNat(s) == B(s[0])
  {
    ZeroValue(s[1..]);
  }

  /** Byte `k` of a word that spreads `c` is bit `k` of `c`, as a number. */
  lemma SpreadByte(r: Word64, c: Word64, k: nat)
    requires Spreads(r, c) && k < 8
    ensures LanesOf(r)[k] == B(c[k])
  {
    var s := r[8 * k .. 8 * k + 8];
    forall m | 1 <= m < 8
      ensures !s[m]
    {
      assert s[m] == r[8 * k + m];
      assert (8 * k + m) % 8 == m;
    }
    assert s[0] == r[8 * k] && (8 * k) % 8 == 0 && (8 * k) / 8 == k;
    LowBitValue(s);
  }

  /** The decompressed block as its 8 words of byte lanes. */
  function DecompressLanes(b: Word64): (r: seq<Lanes>)
    ensures |r| == 8
  {
    var d := DecompressBlock(b);
    seq(8, i requires 0 <= i < 8 => LanesOf(d[i]))
  }

  /** Byte `8 * i + k` of the decompressed block, byte `k` of its word `i`,
      is bit `8 * i + k` of the block, as a `0` or a `1`. */
  lemma DecompressBytes(b: Word64)
    ensures forall i, k :: 0 <= i < 8 && 0 <= k < 8 ==> DecompressLanes(b)[i][k] == B(b[8 * i + k])
  {
    forall i, k | 0 <= i < 8 && 0 <= k < 8
      ensures DecompressLanes(b)[i][k] == B(b[8 * i + k])
    {
      DecompressSpreads(b, i);
      SpreadByte(DecompressBlock(b)[i], Shr(And(b, Span(64, 8 * i, 8 * i + 8)), 8 * i), k);
    }
  }
}
