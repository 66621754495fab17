/** The hard-coded smoothing rules of the older `cellular` grids are the
    `SMOOTH` presets of the engine: applied to the same grid, a cell gets the
    same next state from either (what differs is only the order of the
    updates, in place in raster order there, synchronous here). */
module Generations {
  import opened Lattice
  import opened CytogonRules
  import Cellular
  import CytogonGrid2
  import CytogonGrid3

  /** `cellular`'s 2D rule "alive above 4, dead below 4, unchanged at 4" is
      `Rule2::SMOOTH`: survival at 4 to 8 neighbours, birth at 5 to 8. */
  lemma SmoothRule2(cells: (int, int) -> bool, sx: nat, sy: nat, x: int, y: int)
    ensures Cellular.SmoothCell2(cells, sx, sy, x, y) == CytogonGrid2.Step2(Smooth2, cells, sx, sy)(x, y)
  {
    var c := Moore8(WithBorder2(cells, sx, sy, false), x, y);
    assert CytogonGrid2.Step2(Smooth2, cells, sx, sy)(x, y) == CytogonGrid2.Next2(Smooth2, cells(x, y), c);
    Smooth2Counts();
    assert Smooth2.survive.Has(c) <==> c >= 4;
    assert Smooth2.birth.Has(c) <==> c >= 5;
  }

  /** `cellular`'s 3D rule "13-26/13-14,17-19" is `Rule3::SMOOTH`. */
  lemma SmoothRule3(cells: (int, int, int) -> bool, sx: nat, sy: nat, sz: nat, x: int, y: int, z: int)
    ensures Cellular.SmoothCell3(cells, sx, sy, sz, x, y, z) == CytogonGrid3.Step3(Smooth3, cells, sx, sy, sz)(x, y, z)
  {
    Smooth3Counts();
  }
}
