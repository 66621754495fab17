/** The text exporters of the binaries (the prototype at the repository's
    root, `mkave` and `cytogon-bin`): a grid becomes one character per
    cell, `'#'` alive and `' '` dead, in the order of its buffer, with a
    newline after every row of `size.x` cells and, in 3D, one more after
    every layer of `size.y` rows. */
module Export {
  import opened Lattice

  // ----- The text a buffer should become -----

  function Glyph(b: bool): char
  {
    if b then '#' else ' '
  }

  /** One character per cell, newlines left out. */
  function Glyphs(d: seq<bool>): (r: string)
    ensures |r| == |d|
  {
    if |d| == 0 then [] else [Glyph(d[0])] + Glyphs(d[1..])
  }

  /** Character `k` of the glyphs is that of cell `k`. */
  lemma {:induction false} GlyphsAt(d: seq<bool>, k: nat)
    requires k < |d|
    ensures Glyphs(d)[k] == Glyph(d[k])
    decreases k
  {
    if k > 0 {
      GlyphsAt(d[1..], k - 1);
    }
  }

  /** A 2D text: the buffer cut into rows of `sx` cells, each complete row
      followed by a newline; with `sx == 0` no row is ever complete. */
  function Lines2(d: seq<bool>, sx: nat): string
    decreases |d|
  {
    if sx == 0 || |d| < sx then Glyphs(d) else Glyphs(d[..sx]) + "\n" + Lines2(d[sx..], sx)
  }

  /** A 3D text: the buffer cut into layers of `sx * sy` cells, each
      complete layer written as a 2D text and followed by one more
      newline. */
  function Lines3(d: seq<bool>, sx: nat, sy: nat): string
    decreases |d|
  {
    if sx == 0 || sy == 0 || |d| < Mul(sy, sx) then Lines2(d, sx)
    else
      MulIsProduct(sy, sx);
      Lines2(d[..Mul(sy, sx)], sx) + "\n" + Lines3(d[Mul(sy, sx)..], sx, sy)
  }

  /** The characters of `s` other than newlines. */
  function Strip(s: string): (r: string)
    ensures |r| <= |s|
  {
    if |s| == 0 then [] else (if s[0] == '\n' then [] else [s[0]]) + Strip(s[1..])
  }

  // ----- Where the exporters' counters stand -----

  /** After `len` cells of a 2D export: `i` cells into the current row,
      `rows` rows complete. */
  predicate Cursor2(len: nat, sx: nat, i: nat, rows: nat)
  {
    if sx == 0 then i == len else i < sx && len == Mul(rows, sx) + i
  }

  /** After `len` cells of a 3D export: as in 2D, and `j` rows into the
      current layer, `layers` layers complete.  With `sy == 0` the layer
      counter only grows, so no layer is ever complete. */
  predicate Cursor3(len: nat, sx: nat, sy: nat, i: nat, j: nat, rows: nat, layers: nat)
  {
    && Cursor2(len, sx, i, rows)
    && (sx == 0 ==> j == 0)
    && (sx > 0 && sy == 0 ==> j == rows)
    && (sx > 0 && sy > 0 ==> j < sy && rows == Mul(layers, sy) + j)
  }

  lemma {:induction false} GlyphsSnoc(d: seq<bool>, b: bool)
    ensures Glyphs(d + [b]) == Glyphs(d) + [Glyph(b)]
    decreases |d|
  {
    if |d| > 0 {
      assert (d + [b])[1..] == d[1..] + [b];
      GlyphsSnoc(d[1..], b);
    }
  }

  /** What one more cell adds to a text when the column counter stands at
      `i` and the row counter at `j`: its character, a newline if it
      completes a row and another if that completes a layer. */
  function Advance(b: bool, sx: nat, sy: nat, i: nat, j: nat): string
  {
    [Glyph(b)] + (if i + 1 == sx then "\n" + (if j + 1 == sy then "\n" else "") else "")
  }

  /** Appending a cell to a 2D text appends its character, and a newline
      when it completes a row. */
  lemma {:induction false} Lines2Snoc(d: seq<bool>, b: bool, sx: nat, i: nat, rows: nat)
    requires Cursor2(|d|, sx, i, rows)
    ensures Lines2(d + [b], sx) == Lines2(d, sx) + Advance(b, sx, 0, i, 0)
    decreases rows
  {
    if sx > 0 && rows > 0 {
      var e := d[sx..];
      assert (d + [b])[..sx] == d[..sx];
      assert (d + [b])[sx..] == e + [b];
      Lines2Snoc(e, b, sx, i, rows - 1);
      Assoc(Glyphs(d[..sx]) + "\n", Lines2(e, sx), Advance(b, sx, 0, i, 0));
    } else {
      GlyphsSnoc(d, b);
      if sx > 0 && i + 1 == sx {
        assert (d + [b])[..sx] == d + [b];
        assert (d + [b])[sx..] == [];
        Assoc(Glyphs(d), [Glyph(b)], "\n");
      } else {
        assert Advance(b, sx, 0, i, 0) == [Glyph(b)];
      }
    }
  }

  /** `Lines3Snoc` within the first layer. */
  lemma Lines3SnocFirst(d: seq<bool>, b: bool, sx: nat, sy: nat, i: nat, j: nat)
    requires sx > 0 && sy > 0 && i < sx && j < sy && |d| == Mul(j, sx) + i
    ensures Lines3(d + [b], sx, sy) == Lines3(d, sx, sy) + Advance(b, sx, sy, i, j)
  {
    Lines2Snoc(d, b, sx, i, j);
    assert Mul(j + 1, sx) == Mul(j, sx) + sx;
    MulMono(j + 1, sx, sy, sx);
    assert Lines3(d, sx, sy) == Lines2(d, sx);
    if i + 1 == sx && j + 1 == sy {
      assert (d + [b])[..Mul(sy, sx)] == d + [b];
      assert (d + [b])[Mul(sy, sx)..] == [];
      assert Lines3(d + [b], sx, sy) == Lines2(d + [b], sx) + "\n";
      assert Advance(b, sx, sy, i, j) == Advance(b, sx, 0, i, 0) + "\n";
      Assoc(Lines2(d, sx), Advance(b, sx, 0, i, 0), "\n");
    } else {
      if i + 1 == sx {
        assert Mul(j + 2, sx) == Mul(j + 1, sx) + sx;
        MulMono(j + 2, sx, sy, sx);
      }
      assert Lines3(d + [b], sx, sy) == Lines2(d + [b], sx);
      assert Advance(b, sx, sy, i, j) == Advance(b, sx, 0, i, 0);
    }
  }

  /** Appending a cell to a 3D text appends its character, a newline when
      it completes a row and another when it completes a layer. */
  lemma {:induction false} Lines3Snoc(d: seq<bool>, b: bool, sx: nat, sy: nat, i: nat, j: nat, rows: nat, layers: nat)
    requires Cursor3(|d|, sx, sy, i, j, rows, layers)
    ensures Lines3(d + [b], sx, sy) == Lines3(d, sx, sy) + Advance(b, sx, sy, i, j)
    decreases layers
  {
    if sx == 0 || sy == 0 {
      Lines2Snoc(d, b, sx, i, rows);
      assert Advance(b, sx, sy, i, j) == Advance(b, sx, 0, i, 0);
    } else if layers == 0 {
      Lines3SnocFirst(d, b, sx, sy, i, j);
    } else {
      var p := Mul(sy, sx);
      MulAdd(Mul(layers - 1, sy) + j, sy, sx);
      var e := d[p..];
      assert |e| == Mul(Mul(layers - 1, sy) + j, sx) + i;
      assert (d + [b])[..p] == d[..p];
      assert (d + [b])[p..] == e + [b];
      Lines3Snoc(e, b, sx, sy, i, j, Mul(layers - 1, sy) + j, layers - 1);
      Assoc(Lines2(d[..p], sx) + "\n", Lines3(e, sx, sy), Advance(b, sx, sy, i, j));
    }
  }

  // ----- Length and content -----

  /** Removing `m` multiples of `d` lowers the quotient by `m`. */
  lemma DivStep(n: nat, m: nat, d: nat)
    requires d > 0 && n >= Mul(m, d)
    ensures (n - Mul(m, d)) / d == n / d - m
  {
    var q, r := (n - Mul(m, d)) / d, (n - Mul(m, d)) % d;
    DivMod(n - Mul(m, d), d);
    MulAdd(q, m, d);
    DivUnique(n, d, q + m, r);
  }

  /** Removing one layer of `sx * sy` cells removes `sy` rows and one
      layer. */
  lemma LayerDiv(n: nat, sx: nat, sy: nat)
    requires sx > 0 && sy > 0 && n >= Mul(sy, sx)
    ensures Mul(sy, sx) == sx * sy
    ensures (n - Mul(sy, sx)) / sx == n / sx - sy
    ensures (n - Mul(sy, sx)) / (sx * sy) == n / (sx * sy) - 1
  {
    MulIsProduct(sy, sx);
    DivStep(n, sy, sx);
    assert Mul(1, Mul(sy, sx)) == Mul(sy, sx);
    DivStep(n, 1, Mul(sy, sx));
  }

  /** A 2D text of `len` cells has `len + len / sx` characters. */
  lemma {:induction false} Lines2Length(d: seq<bool>, sx: nat)
    requires sx > 0
    ensures |Lines2(d, sx)| == |d| + |d| / sx
    decreases |d|
  {
    if |d| >= sx {
      Lines2Length(d[sx..], sx);
      assert Mul(1, sx) == sx;
      DivStep(|d|, 1, sx);
    } else {
      DivUnique(|d|, sx, 0, |d|);
    }
  }

  /** A 3D text of `len` cells has `len + len / sx + len / (sx * sy)`
      characters. */
  lemma {:induction false} Lines3Length(d: seq<bool>, sx: nat, sy: nat)
    requires sx > 0 && sy > 0
    ensures |Lines3(d, sx, sy)| == |d| + |d| / sx + |d| / (sx * sy)
    decreases |d|
  {
    var p := Mul(sy, sx);
    MulIsProduct(sy, sx);
    if |d| < p {
      Lines2Length(d, sx);
      DivUnique(|d|, sx * sy, 0, |d|);
    } else {
      Lines2Length(d[..p], sx);
      Lines3Length(d[p..], sx, sy);
      LayerDiv(|d|, sx, sy);
      assert p / sx == sy by {
        DivUnique(p, sx, sy, 0);
      }
    }
  }

  lemma {:induction false} StripAppend(a: string, b: string)
    ensures Strip(a + b) == Strip(a) + Strip(b)
    decreases |a|
  {
    if |a| == 0 {
      assert a + b == b;
    } else {
      assert (a + b)[0] == a[0];
      assert (a + b)[1..] == a[1..] + b;
      StripAppend(a[1..], b);
    }
  }

  lemma {:induction false} StripGlyphs(d: seq<bool>)
    ensures Strip(Glyphs(d)) == Glyphs(d)
    decreases |d|
  {
    if |d| > 0 {
      StripAppend([Glyph(d[0])], Glyphs(d[1..]));
      StripGlyphs(d[1..]);
    }
  }

  lemma {:induction false} GlyphsSplit(d: seq<bool>, n: nat)
    requires n <= |d|
    ensures Glyphs(d[..n]) + Glyphs(d[n..]) == Glyphs(d)
    decreases n
  {
    if n > 0 {
      assert d[..n][1..] == d[1..][..n - 1];
      assert d[n..] == d[1..][n - 1..];
      GlyphsSplit(d[1..], n - 1);
    } else {
      assert d[n..] == d;
    }
  }

  lemma StripNewline(a: string)
    ensures Strip(a + "\n") == Strip(a)
  {
    StripAppend(a, "\n");
    assert Strip("\n") == [];
    assert Strip(a) + [] == Strip(a);
  }

  /** Without its newlines a 2D text is the cells' characters in buffer
      order. */
  lemma {:induction false} Lines2Strip(d: seq<bool>, sx: nat)
    ensures Strip(Lines2(d, sx)) == Glyphs(d)
    decreases |d|
  {
    if sx == 0 || |d| < sx {
      StripGlyphs(d);
    } else {
      var g, l := Glyphs(d[..sx]), Lines2(d[sx..], sx);
      StripAppend(g + "\n", l);
      StripNewline(g);
      StripGlyphs(d[..sx]);
      Lines2Strip(d[sx..], sx);
      GlyphsSplit(d, sx);
    }
  }

  /** Without its newlines a 3D text is the cells' characters in buffer
      order: its `k`-th other character is that of cell `k`. */
  lemma {:induction false} Lines3Strip(d: seq<bool>, sx: nat, sy: nat)
    ensures Strip(Lines3(d, sx, sy)) == Glyphs(d)
    decreases |d|
  {
    if sx == 0 || sy == 0 || |d| < Mul(sy, sx) {
      Lines2Strip(d, sx);
    } else {
      MulIsProduct(sy, sx);
      var p := Mul(sy, sx);
      var l, m := Lines2(d[..p], sx), Lines3(d[p..], sx, sy);
      StripAppend(l + "\n", m);
      StripNewline(l);
      Lines2Strip(d[..p], sx);
      Lines3Strip(d[p..], sx, sy);
      GlyphsSplit(d, p);
    }
  }

  /** The `k`-th character of a 3D text other than a newline is that of
      cell `k`. */
  lemma Lines3Cell(d: seq<bool>, sx: nat, sy: nat, k: nat)
    requires k < |d|
    ensures |Strip(Lines3(d, sx, sy))| == |d|
    ensures Strip(Lines3(d, sx, sy))[k] == Glyph(d[k])
  {
    Lines3Strip(d, sx, sy);
    GlyphsAt(d, k);
  }

  // ----- The exporters -----

  /** One step of `export_txt2`'s loop: push the cell's character and
      move the column counter `i`, pushing a newline at the end of a
      row. */
  method PushCell2(s: string, b: bool, sx: nat, i: nat, ghost len: nat, ghost rows: nat)
    returns (t: string, i': nat, ghost rows': nat)
    requires Cursor2(len, sx, i, rows)
    ensures Cursor2(len + 1, sx, i', rows')
    ensures t == s + Advance(b, sx, 0, i, 0)
  {
    t, i', rows' := s + [if b then '#' else ' '], i + 1, rows;
    if i' == sx {
      i' := 0;
      t := t + ['\n'];
      rows' := rows' + 1;
      Assoc(s, [Glyph(b)], "\n");
    }
  }

  /** `export_txt2`: one character per cell, and a newline each time the
      column counter `i` reaches `size.x`. */
  method ExportTxt2(sx: nat, data: seq<bool>) returns (s: string)
    ensures s == Lines2(data, sx)
  {
    s := [];
    var i: nat := 0;
    ghost var rows: nat := 0;
    for n := 0 to |data|
      invariant Cursor2(n, sx, i, rows)
      invariant s == Lines2(data[..n], sx)
    {
      Lines2Snoc(data[..n], data[n], sx, i, rows);
      assert data[..n + 1] == data[..n] + [data[n]];
      s, i, rows := PushCell2(s, data[n], sx, i, n, rows);
    }
    assert data[..|data|] == data;
  }

  /** One step of the 3D exporters' loops: push the cell's character,
      move the column counter `i` and, at the end of a row, push a newline
      and move the row counter `j`, which at the end of a layer pushes one
      more. */
  method PushCell3(s: string, b: bool, sx: nat, sy: nat, i: nat, j: nat,
                   ghost len: nat, ghost rows: nat, ghost layers: nat)
    returns (t: string, i': nat, j': nat, ghost rows': nat, ghost layers': nat)
    requires Cursor3(len, sx, sy, i, j, rows, layers)
    ensures Cursor3(len + 1, sx, sy, i', j', rows', layers')
    ensures t == s + Advance(b, sx, sy, i, j)
  {
    t, i', j', rows', layers' := s + [if b then '#' else ' '], i + 1, j, rows, layers;
    if i' == sx {
      i' := 0;
      t := t + ['\n'];
      rows' := rows' + 1;
      j' := j' + 1;
      if j' == sy {
        j' := 0;
        t := t + ['\n'];
        layers' := layers' + 1;
        assert t == s + ([Glyph(b)] + "\n\n");
      } else {
        Assoc(s, [Glyph(b)], "\n");
      }
    }
  }

  /** `export_txt3`: as `export_txt2`, with a row counter `j` that adds a
      blank line each time it reaches `size.y`. */
  method ExportTxt3(sx: nat, sy: nat, data: seq<bool>) returns (s: string)
    ensures s == Lines3(data, sx, sy)
  {
    s := [];
    var i: nat := 0;
    var j: nat := 0;
    ghost var rows: nat := 0;
    ghost var layers: nat := 0;
    for n := 0 to |data|
      invariant Cursor3(n, sx, sy, i, j, rows, layers)
      invariant s == Lines3(data[..n], sx, sy)
    {
      Lines3Snoc(data[..n], data[n], sx, sy, i, j, rows, layers);
      assert data[..n + 1] == data[..n] + [data[n]];
      s, i, j, rows, layers := PushCell3(s, data[n], sx, sy, i, j, n, rows, layers);
    }
    assert data[..|data|] == data;
  }

  // ----- `cytogon-bin`: cells packed in 64-bit blocks -----

  /** Bit `b` of a block, as `block & (1u64 << b) != 0` reads it. */
  function BitOf(block: bv64, b: nat): bool
    requires b < 64
  {
    block & (1 << b) != 0
  }

  /** The cells `export_txt3` reads from the blocks: bits 0 to 62 of each
      block in turn. */
  function Bits63(data: seq<bv64>): (r: seq<bool>)
    ensures |r| == 63 * |data|
  {
    if |data| == 0 then [] else Block63(data[0]) + Bits63(data[1..])
  }

  /** Bits 0 to 62 of one block. */
  function Block63(block: bv64): (r: seq<bool>)
    ensures |r| == 63
  {
    seq(63, b requires 0 <= b < 63 => BitOf(block, b))
  }

  /** Character `63 * n + b` of the cells is bit `b` of block `n`; bit 63
      of a block is never read. */
  lemma {:induction false} Bits63At(data: seq<bv64>, n: nat, b: nat)
    requires n < |data| && b < 63
    ensures Bits63(data)[63 * n + b] == BitOf(data[n], b)
    decreases n
  {
    if n > 0 {
      Bits63At(data[1..], n - 1, b);
    }
  }

  /** Setting or clearing bit 63 of any block leaves the text unchanged. */
  lemma Bit63Unread(data: seq<bv64>, n: nat, sx: nat, sy: nat)
    requires n < |data|
    ensures Lines3(Bits63(data[n := data[n] ^ (1 << 63)]), sx, sy) == Lines3(Bits63(data), sx, sy)
  {
    var flipped := data[n] ^ (1 << 63);
    assert Block63(flipped) == Block63(data[n]) by {
      forall b | 0 <= b < 63
        ensures BitOf(flipped, b) == BitOf(data[n], b)
      {
        BitFlip63(data[n], b);
      }
    }
    Bits63Update(data, n, flipped);
  }

  lemma BitFlip63(block: bv64, b: nat)
    requires b < 63
    ensures BitOf(block ^ (1 << 63), b) == BitOf(block, b)
  {
  }

  lemma {:induction false} Bits63Update(data: seq<bv64>, n: nat, block: bv64)
    requires n < |data| && Block63(block) == Block63(data[n])
    ensures Bits63(data[n := block]) == Bits63(data)
    decreases n
  {
    if n > 0 {
      assert data[n := block][1..] == data[1..][n - 1 := block];
      Bits63Update(data[1..], n - 1, block);
    }
  }

  lemma Bits63Snoc(data: seq<bv64>, block: bv64)
    ensures Bits63(data + [block]) == Bits63(data) + Block63(block)
    decreases |data|
  {
    if |data| > 0 {
      assert (data + [block])[1..] == data[1..] + [block];
      Bits63Snoc(data[1..], block);
    }
  }

  /** Taking one more element of `cells` after `done`. */
  lemma TakeSnoc(done: seq<bool>, cells: seq<bool>, k: nat)
    requires k < |cells|
    ensures done + cells[..k + 1] == (done + cells[..k]) + [cells[k]]
  {
    assert cells[..k + 1] == cells[..k] + [cells[k]];
  }

  /** The inner loop of `cytogon-bin`'s `export_txt3`: bits 0 to 62 of
      one block, with the counters carried in and out. */
  method PushBlock3(s: string, block: bv64, sx: nat, sy: nat, i: nat, j: nat,
                    ghost done: seq<bool>, ghost rows: nat, ghost layers: nat)
    returns (t: string, i': nat, j': nat, ghost rows': nat, ghost layers': nat)
    requires Cursor3(|done|, sx, sy, i, j, rows, layers)
    requires s == Lines3(done, sx, sy)
    ensures Cursor3(|done| + 63, sx, sy, i', j', rows', layers')
    ensures t == Lines3(done + Block63(block), sx, sy)
  {
    t, i', j', rows', layers' := s, i, j, rows, layers;
    ghost var cells := Block63(block);
    assert done + cells[..0] == done;
    for bit := 0 to 63
      invariant Cursor3(|done| + bit, sx, sy, i', j', rows', layers')
      invariant t == Lines3(done + cells[..bit], sx, sy)
    {
      var b := BitOf(block, bit);
      ghost var cur := done + cells[..bit];
      assert Lines3(done + cells[..bit + 1], sx, sy) == t + Advance(b, sx, sy, i', j') by {
        TakeSnoc(done, cells, bit);
        Lines3Snoc(cur, b, sx, sy, i', j', rows', layers');
      }
      t, i', j', rows', layers' := PushCell3(t, b, sx, sy, i', j', |cur|, rows', layers');
    }
    assert cells[..63] == cells;
  }

  /** `cytogon-bin`'s `export_txt3`: 63 characters per block, the counters
      `i` and `j` carried from one block to the next. */
  method ExportBlocks3(sx: nat, sy: nat, data: seq<bv64>) returns (s: string)
    ensures s == Lines3(Bits63(data), sx, sy)
  {
    s := [];
    var i: nat := 0;
    var j: nat := 0;
    ghost var rows: nat := 0;
    ghost var layers: nat := 0;
    for n := 0 to |data|
      invariant Cursor3(|Bits63(data[..n])|, sx, sy, i, j, rows, layers)
      invariant s == Lines3(Bits63(data[..n]), sx, sy)
    {
      s, i, j, rows, layers := PushBlock3(s, data[n], sx, sy, i, j, Bits63(data[..n]), rows, layers);
      Bits63Snoc(data[..n], data[n]);
      assert data[..n + 1] == data[..n] + [data[n]];
    }
    assert data[..|data|] == data;
  }
}
