/** The board's grid of optional colours and the two cell-level loops of the board:
    the collision test and the writing of a value into a mask's footprint. */
module Grids {
  import opened Wrappers
  import opened Pieces

  type Row = seq<Option<Color>>

  /** Rows top to bottom; `g[y][x]` is the cell in column x of row y. */
  type Grid = seq<Row>

  /** `g` has `height` rows of `width` cells each. */
  predicate Shaped(g: Grid, width: nat, height: nat)
  {
    |g| == height && forall y :: 0 <= y < |g| ==> |g[y]| == width
  }

  function EmptyRow(width: nat): (row: Row)
    ensures |row| == width
    ensures forall x :: 0 <= x < width ==> row[x] == None
  {
    seq(width, _ => None)
  }

  function EmptyGrid(width: nat, height: nat): (g: Grid)
    ensures Shaped(g, width, height)
    ensures forall y, x :: 0 <= y < height && 0 <= x < width ==> g[y][x] == None
  {
    seq(height, _ => EmptyRow(width))
  }

  /** Two grids of the same size with the same cells are equal. */
  lemma SameCells(g1: Grid, g2: Grid, width: nat, height: nat)
    requires Shaped(g1, width, height) && Shaped(g2, width, height)
    requires forall y, x :: 0 <= y < height && 0 <= x < width ==> g1[y][x] == g2[y][x]
    ensures g1 == g2
  {
    forall y | 0 <= y < height
      ensures g1[y] == g2[y]
    {
      assert forall x :: 0 <= x < width ==> g1[y][x] == g2[y][x];
    }
  }

  /** Cell (x, y) lies under an occupied entry of `shape` anchored at (px, py). */
  predicate Covers(shape: Mask, px: int, py: int, x: int, y: int)
  {
    0 <= y - py < |shape| && 0 <= x - px < |shape[y - py]| && shape[y - py][x - px] == 1
  }

  /** Every occupied cell of `shape` anchored at `pos` lies inside the board. */
  predicate InBounds(width: nat, height: nat, shape: Mask, pos: Pos)
  {
    forall r, c :: 0 <= r < |shape| && 0 <= c < |shape[r]| && shape[r][c] == 1 ==>
      0 <= pos.x + c < width && pos.y + r < height
  }

  /** A cell a piece may not occupy: outside the side walls, below the floor, or
      holding a colour. The grid is consulted only once the bounds are known to hold. */
  predicate Blocked(g: Grid, width: nat, height: nat, x: int, y: nat)
    requires Shaped(g, width, height)
  {
    x < 0 || x >= width || y >= height || g[y][x].Some?
  }

  /** No occupied cell of `shape` anchored at `pos` is blocked. */
  predicate Free(g: Grid, width: nat, height: nat, shape: Mask, pos: Pos)
    requires Shaped(g, width, height)
  {
    forall r, c :: 0 <= r < |shape| && 0 <= c < |shape[r]| && shape[r][c] == 1 ==>
      !Blocked(g, width, height, pos.x + c, pos.y + r)
  }

  lemma FreeIsInBounds(g: Grid, width: nat, height: nat, shape: Mask, pos: Pos)
    requires Shaped(g, width, height)
    requires Free(g, width, height, shape, pos)
    ensures InBounds(width, height, shape, pos)
  {
  }

  /** An occupied entry of `shape` that lands on a coloured cell makes `pos` not free. */
  lemma LandsOnColour(g: Grid, width: nat, height: nat, shape: Mask, pos: Pos, r: nat, c: nat)
    requires Shaped(g, width, height)
    requires r < |shape| && c < |shape[r]| && shape[r][c] == 1
    requires 0 <= pos.x + c < width && pos.y + r < height && g[pos.y + r][pos.x + c].Some?
    ensures !Free(g, width, height, shape, pos)
  {
  }

  /** The collision test: scans the mask row by row and reports a hit as soon as an
      occupied cell lands on a blocked cell. */
  function CheckCollision(g: Grid, width: nat, height: nat, shape: Mask, pos: Pos): (hit: bool)
    requires Shaped(g, width, height)
    ensures hit <==> !Free(g, width, height, shape, pos)
  {
    RowsCollide(g, width, height, shape, pos, 0)
  }

  /** The scan of the mask rows from `row` on. */
  function RowsCollide(g: Grid, width: nat, height: nat, shape: Mask, pos: Pos, row: nat): (hit: bool)
    requires Shaped(g, width, height)
    ensures hit <==> exists r, c :: row <= r < |shape| && 0 <= c < |shape[r]| && shape[r][c] == 1 &&
                                   Blocked(g, width, height, pos.x + c, pos.y + r)
    decreases |shape| - row
  {
    if row >= |shape| then false
    else CellsCollide(g, width, height, shape[row], pos.x, pos.y + row, 0)
         || RowsCollide(g, width, height, shape, pos, row + 1)
  }

  /** The scan of one mask row, placed at row `y` from column `x0`, from entry `col` on. */
  function CellsCollide(g: Grid, width: nat, height: nat, bits: seq<int>, x0: int, y: nat, col: nat): (hit: bool)
    requires Shaped(g, width, height)
    ensures hit <==> exists c :: col <= c < |bits| && bits[c] == 1 && Blocked(g, width, height, x0 + c, y)
    decreases |bits| - col
  {
    if col >= |bits| then false
    else (bits[col] == 1 && Blocked(g, width, height, x0 + col, y))
         || CellsCollide(g, width, height, bits, x0, y, col + 1)
  }

  /** Writes `v` into every in-bounds cell under an occupied entry of `shape` anchored
      at (px, py), scanning the mask row by row. */
  function Stamp(g: Grid, width: nat, height: nat, shape: Mask, px: int, py: int, v: Option<Color>): (r: Grid)
    requires Shaped(g, width, height)
    ensures Shaped(r, width, height)
    ensures forall y, x :: 0 <= y < height && 0 <= x < width ==>
      r[y][x] == if Covers(shape, px, py, x, y) then v else g[y][x]
  {
    StampRows(g, width, height, shape, px, py, v, 0)
  }

  /** The writes for the mask rows from `row` on. */
  function StampRows(g: Grid, width: nat, height: nat, shape: Mask, px: int, py: int, v: Option<Color>, row: nat): (r: Grid)
    requires Shaped(g, width, height)
    ensures Shaped(r, width, height)
    ensures forall y, x :: 0 <= y < height && 0 <= x < width ==>
      r[y][x] == if py + row <= y && Covers(shape, px, py, x, y) then v else g[y][x]
    decreases |shape| - row
  {
    if row >= |shape| then g
    else
      var g' := StampCells(g, width, height, shape[row], px, py + row, v, 0);
      StampRows(g', width, height, shape, px, py, v, row + 1)
  }

  /** The writes for one mask row, placed at row `y` from column `x0`, from entry `col` on. */
  function StampCells(g: Grid, width: nat, height: nat, bits: seq<int>, x0: int, y: int, v: Option<Color>, col: nat): (r: Grid)
    requires Shaped(g, width, height)
    ensures Shaped(r, width, height)
    ensures forall yy, xx :: 0 <= yy < height && 0 <= xx < width ==>
      r[yy][xx] == if yy == y && col <= xx - x0 < |bits| && bits[xx - x0] == 1 then v else g[yy][xx]
    decreases |bits| - col
  {
    if col >= |bits| then g
    else
      var x := x0 + col;
      var g' := if bits[col] == 1 && 0 <= x < width && 0 <= y < height then g[y := g[y][x := v]] else g;
      StampCells(g', width, height, bits, x0, y, v, col + 1)
  }
}
