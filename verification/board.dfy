/** The board engine: the state the board widget keeps (grid, active piece, score,
    level, paused flag) and its game operations, each a function from board to board
    except the line clearing, which keeps the source's two loops.

    The source writes the active piece into the grid when it places it, erases it when
    it moves down, and re-places it at the top when a downward move is blocked; these
    are modelled as written. */
module Boards {
  import opened Wrappers
  import opened Pieces
  import opened Grids
  import opened Lines

  datatype Board = Board(
    width: nat,
    height: nat,
    grid: Grid,
    active: Option<Piece>,
    score: int,
    level: int,
    paused: bool)

  /** There is an active piece and it has been given a position. */
  predicate Placed(b: Board)
  {
    b.active.Some? && b.active.value.pos.Some?
  }

  function Active(b: Board): Piece
    requires b.active.Some?
  {
    b.active.value
  }

  function Anchor(b: Board): Pos
    requires Placed(b)
  {
    b.active.value.pos.value
  }

  /** What every board reachable through the operations satisfies: a grid of the
      board's size on a board that every catalogue mask fits, and an active piece that is
      a catalogue piece placed with all its cells inside the board, which a blocked drop
      could place again at the top. */
  predicate Valid(b: Board)
  {
    && 4 <= b.width && 4 <= b.height
    && Shaped(b.grid, b.width, b.height)
    && (b.active.Some? ==>
          && PieceOk(Active(b))
          && Placed(b)
          && InBounds(b.width, b.height, Active(b).shape, Anchor(b))
          && SpawnFits(b.width, b.height, Active(b).shape))
  }

  /** A new board, 10 by 20 unless told otherwise: every cell empty, no active piece,
      score and level 0, not paused. */
  function NewBoard(width: nat := 10, height: nat := 20): (b: Board)
    ensures b.width == width && b.height == height
    ensures Shaped(b.grid, width, height)
    ensures forall y, x :: 0 <= y < height && 0 <= x < width ==> b.grid[y][x].None?
    ensures b.active.None? && b.score == 0 && b.level == 0 && !b.paused
    ensures 4 <= width && 4 <= height ==> Valid(b)
  {
    Board(width, height, EmptyGrid(width, height), None, 0, 0, false)
  }

  /** The spawn column: the mask's first row centred, rounding to the left (floor
      division, also when the mask is wider than the board). */
  function SpawnX(width: nat, shape: Mask): (x: int)
    requires 0 < |shape|
    ensures 2 * x <= width - |shape[0]| < 2 * x + 2
  {
    (width - |shape[0]|) / 2
  }

  /** The spawn writes of `shape` stay inside the board. */
  predicate SpawnFits(width: nat, height: nat, shape: Mask)
  {
    && 0 < |shape|
    && |shape[0]| <= width
    && forall r, c :: 0 <= r < |shape| && 0 <= c < |shape[r]| && shape[r][c] == 1 ==>
         r < height && SpawnX(width, shape) + c < width
  }

  /** Every catalogue mask fits at the spawn position of a board at least 4 by 4. */
  lemma TetrominoFits(width: nat, height: nat, m: Mask)
    requires IsTetromino(m)
    requires 4 <= width && 4 <= height
    ensures SpawnFits(width, height, m)
  {
    var x := SpawnX(width, m);
    assert 0 <= x <= width - |m[0]|;
  }

  /** Puts `p` at the top centre and writes its colour into its footprint, without
      looking at what was there; `p` becomes the active piece. */
  function PlacePiece(b: Board, p: Piece): (r: Board)
    requires Shaped(b.grid, b.width, b.height)
    requires SpawnFits(b.width, b.height, p.shape)
    ensures Placed(r) && Active(r) == p.(pos := Some(Anchor(r)))
    ensures Anchor(r).y == 0 && 0 <= Anchor(r).x
    ensures var spare := b.width - |p.shape[0]|;
      spare - 2 * Anchor(r).x == 0 || spare - 2 * Anchor(r).x == 1
    ensures InBounds(b.width, b.height, p.shape, Anchor(r))
    ensures Shaped(r.grid, b.width, b.height)
    ensures forall y, x :: 0 <= y < b.height && 0 <= x < b.width ==>
      r.grid[y][x] == if Covers(p.shape, Anchor(r).x, 0, x, y) then Some(p.color) else b.grid[y][x]
    ensures r == b.(grid := r.grid, active := r.active)
  {
    var x := SpawnX(b.width, p.shape);
    b.(grid := Stamp(b.grid, b.width, b.height, p.shape, x, 0, Some(p.color)),
       active := Some(p.(pos := Some(Pos(x, 0)))))
  }

  /** Erases the active piece's in-bounds footprint from the grid. */
  function ClearActivePiece(b: Board): (r: Board)
    requires Shaped(b.grid, b.width, b.height)
    requires Placed(b)
    ensures Shaped(r.grid, b.width, b.height)
    ensures forall y, x :: 0 <= y < b.height && 0 <= x < b.width ==>
      r.grid[y][x] == if Covers(Active(b).shape, Anchor(b).x, Anchor(b).y, x, y) then None else b.grid[y][x]
    ensures r == b.(grid := r.grid)
  {
    var at := Anchor(b);
    b.(grid := Stamp(b.grid, b.width, b.height, Active(b).shape, at.x, at.y, None))
  }

  /** Moves the active piece one column left or right when the shifted footprint is
      free in the grid as it stands, which still holds the piece's own cells if it has
      not moved down since it was placed. "down" is the downward move; any other
      direction does nothing. */
  function MovePiece(b: Board, direction: string): (r: Board)
    requires Shaped(b.grid, b.width, b.height)
    requires direction == "left" || direction == "right" ==> Placed(b)
    requires direction == "down" ==> Placed(b) && SpawnFits(b.width, b.height, Active(b).shape)
    ensures direction == "down" ==> r == MovePieceDown(b)
    ensures direction != "left" && direction != "right" && direction != "down" ==> r == b
    ensures direction == "left" || direction == "right" ==>
      var to := Pos(Anchor(b).x + (if direction == "left" then -1 else 1), Anchor(b).y);
      && r.grid == b.grid
      && (Free(b.grid, b.width, b.height, Active(b).shape, to) ==> r == b.(active := Some(Active(b).(pos := Some(to)))))
      && (!Free(b.grid, b.width, b.height, Active(b).shape, to) ==> r == b)
  {
    if direction == "down" then MovePieceDown(b)
    else if direction != "left" && direction != "right" then b
    else
      var p := Active(b);
      var to := if direction == "left" then Pos(Anchor(b).x - 1, Anchor(b).y) else Pos(Anchor(b).x + 1, Anchor(b).y);
      if !CheckCollision(b.grid, b.width, b.height, p.shape, to) then b.(active := Some(p.(pos := Some(to))))
      else b
  }

  /** Erases the active piece, then moves it one row down if that footprint is free,
      leaving it out of the grid; otherwise places it afresh at the top centre, with its
      current mask and counter. */
  function MovePieceDown(b: Board): (r: Board)
    requires Shaped(b.grid, b.width, b.height)
    requires Placed(b)
    requires SpawnFits(b.width, b.height, Active(b).shape)
    ensures var e := ClearActivePiece(b);
      var below := Pos(Anchor(b).x, Anchor(b).y + 1);
      && (Free(e.grid, b.width, b.height, Active(b).shape, below) ==>
            r == e.(active := Some(Active(b).(pos := Some(below)))))
      && (!Free(e.grid, b.width, b.height, Active(b).shape, below) ==>
            r == PlacePiece(e, Active(b)) && Anchor(r).y == 0)
  {
    var e := ClearActivePiece(b);
    var p := Active(e);
    var below := Pos(Anchor(e).x, Anchor(e).y + 1);
    if !CheckCollision(e.grid, e.width, e.height, p.shape, below) then e.(active := Some(p.(pos := Some(below))))
    else PlacePiece(e, p)
  }

  /** Rotates the active piece in place when the candidate mask is free at the current
      anchor in the grid as it stands; left and right read the same table. Without an
      active piece, or for any other direction, nothing happens. */
  function RotatePiece(b: Board, direction: string := "right"): (r: Board)
    requires Shaped(b.grid, b.width, b.height)
    requires b.active.Some? ==> Placed(b)
    ensures r == b.(active := r.active)
    ensures b.active.None? || (direction != "left" && direction != "right") ==> r == b
    ensures b.active.Some? && (direction == "left" || direction == "right") ==>
      && (Free(b.grid, b.width, b.height, RotateRight(Active(b)), Anchor(b)) ==>
            && r.active == Some(Turn(Active(b)))
            && Active(r).shape == RotateRight(Active(b))
            && Active(r).rotation == (Active(b).rotation + 1) % 4
            && Active(r).pos == Active(b).pos)
      && (!Free(b.grid, b.width, b.height, RotateRight(Active(b)), Anchor(b)) ==> r == b)
  {
    if b.active.None? then b
    else if direction != "left" && direction != "right" then b
    else
      var p := Active(b);
      var m := if direction == "right" then RotateRight(p) else RotateLeft(p);
      if !CheckCollision(b.grid, b.width, b.height, m, Anchor(b)) then b.(active := Some(Rotate(p.(shape := m))))
      else b
  }

  /** Collects the full rows top to bottom, then for each in that order deletes it and
      inserts an empty row on top, and adds 100 points per row. */
  method ClearLines(b: Board) returns (r: Board)
    requires Shaped(b.grid, b.width, b.height)
    ensures r.grid == Empties(|FullRows(b.grid)|, b.width) + NonFull(b.grid)
    ensures r.score == b.score + 100 * |FullRows(b.grid)|
    ensures r == b.(grid := r.grid, score := r.score)
    ensures Shaped(r.grid, b.width, b.height)
    ensures Valid(b) ==> Valid(r)
  {
    var full := CollectFullRows(b.grid, b.width, b.height);
    var g := DeleteFullRows(b.grid, b.width, full);
    r := b.(grid := g, score := b.score + |full| * 100);
    ClearedShaped(b.grid, b.width, b.height);
  }

  /** The scan of the line clearing: the indices of the full rows, ascending. */
  method CollectFullRows(grid: Grid, width: nat, height: nat) returns (full: seq<nat>)
    requires Shaped(grid, width, height)
    ensures full == FullRows(grid)
    ensures Ascending(full)
    ensures forall y :: 0 <= y < height ==> (Full(grid[y]) <==> y in full)
  {
    full := [];
    var row := 0;
    while row < height
      invariant row <= height
      invariant full == FullRowsBelow(grid, row)
    {
      if Full(grid[row]) {
        full := full + [row];
      }
      row := row + 1;
    }
    FullRowsBelowFacts(grid, |grid|);
  }

  /** The deleting loop of the line clearing. Deleting a row and inserting one on top
      leaves every row below the deleted one where it was, so each full row still to be
      deleted is found at its original index; the result is the same as removing all
      full rows at once. */
  method DeleteFullRows(grid: Grid, width: nat, full: seq<nat>) returns (g: Grid)
    requires full == FullRows(grid)
    ensures g == Empties(|full|, width) + NonFull(grid)
  {
    g := grid;
    ghost var cut := 0;
    var i := 0;
    while i < |full|
      invariant i <= |full|
      invariant cut <= |grid|
      invariant cut == if i == 0 then 0 else full[i - 1] + 1
      invariant |KeptBelow(grid, cut)| + i == cut
      invariant g == Stage(grid, width, i, cut)
    {
      var idx := full[i];
      DeleteInsertStep(grid, width, i, cut, idx, g);
      g := DeleteInsert(g, idx, width);
      cut := idx + 1;
      i := i + 1;
    }
    DeleteInsertDone(grid, width, i, cut);
  }

  /** Empties the grid, sets score 0 and level 1, pauses, and places a fresh piece of
      the variant `pick`, the random choice of the source. */
  function ResetGame(b: Board, pick: Kind): (r: Board)
    requires SpawnFits(b.width, b.height, SpawnShape(pick))
    ensures r.width == b.width && r.height == b.height
    ensures r.score == 0 && r.level == 1 && r.paused
    ensures Placed(r) && Active(r) == NewPiece(pick).(pos := Some(Anchor(r)))
    ensures Anchor(r) == Pos(SpawnX(b.width, SpawnShape(pick)), 0)
    ensures InBounds(b.width, b.height, SpawnShape(pick), Anchor(r))
    ensures Shaped(r.grid, b.width, b.height)
    ensures forall y, x :: 0 <= y < b.height && 0 <= x < b.width ==>
      r.grid[y][x] == if Covers(SpawnShape(pick), Anchor(r).x, 0, x, y) then Some(ColorOf(pick)) else None
    ensures 4 <= b.width && 4 <= b.height ==> Valid(r)
  {
    var blank := b.(grid := EmptyGrid(b.width, b.height), active := None, score := 0, level := 1, paused := true);
    PlacePiece(blank, NewPiece(pick))
  }

  /** Game over starts a new game on a board of the same size: score and level back to
      their start values, and the only occupied cells are those of a fresh piece of the
      drawn variant at the top centre. */
  function GameOver(b: Board, pick: Kind): (r: Board)
    requires SpawnFits(b.width, b.height, SpawnShape(pick))
    ensures r.width == b.width && r.height == b.height
    ensures r.score == 0 && r.level == 1 && r.paused
    ensures Placed(r) && Active(r) == NewPiece(pick).(pos := Some(Anchor(r)))
    ensures Anchor(r) == Pos(SpawnX(b.width, SpawnShape(pick)), 0)
    ensures InBounds(b.width, b.height, SpawnShape(pick), Anchor(r))
    ensures Shaped(r.grid, b.width, b.height)
    ensures forall y, x :: 0 <= y < b.height && 0 <= x < b.width ==>
      r.grid[y][x] == if Covers(SpawnShape(pick), Anchor(r).x, 0, x, y) then Some(ColorOf(pick)) else None
    ensures 4 <= b.width && 4 <= b.height ==> Valid(r)
  {
    ResetGame(b, pick)
  }
}
