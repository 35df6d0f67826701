/**
 The grid shape the constructor builds, against the shape the bounds check
 assumes.

 The constructor builds `h` lists of `w` zeros, so the array's first index
 ranges over `[0, h)`; the bounds check and every read index the first
 coordinate `x` against the width. The two agree only on square grids. The
 rest of the model uses the corrected shape from `Automata.New`: `w` columns
 of `h` cells.
 */
module SourceShape {
  import opened Grid
  import opened Automata

  /** The array as the constructor writes it: `h` rows of `w` zeros. */
  function SourceGrid(w: nat, h: nat): (g: Cells)
    ensures |g| == h
    ensures forall r :: 0 <= r < h ==> |g[r]| == w && forall k :: 0 <= k < w ==> g[r][k] == 0
  {
    seq(h, _ => seq(w, _ => 0))
  }

  /** The constructor's array has the shape the bounds check assumes exactly when the grid is square. */
  lemma SourceGridShapedIffSquare(w: nat, h: nat)
    ensures Shaped(SourceGrid(w, h), w, h) <==> w == h
  {
  }

  /**
   A 3-wide, 2-high automaton: when the cell `(1, 0)` is alive, `update`
   asks whether its right neighbour `(2, 0)` is in bounds, is told yes, and
   then reads row 2 of an array that has only rows 0 and 1.
   */
  lemma GuardAdmitsReadOutsideSourceArray()
    ensures Truthy(IsWithinBounds(3, 2, 2, 0))
    ensures |SourceGrid(3, 2)| <= 2
  {
  }

  /**
   The corrected constructor builds exactly the shape the bounds check
   assumes, whether or not the grid is square, so every coordinate the check
   admits indexes the grid.
   */
  lemma CorrectedGridGuardsEveryIndex(w: nat, h: nat, x: int, y: int)
    requires Truthy(IsWithinBounds(w, h, x, y))
    ensures Shaped(New(w, h).cells, w, h)
    ensures 0 <= x < |New(w, h).cells| && 0 <= y < |New(w, h).cells[x]|
  {
    GuardedIndexSafe(New(w, h).cells, w, h, x, y);
  }
}
