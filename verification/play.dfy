/** Facts about sequences of board operations: which operations keep a board valid,
    which undo each other, and what happens to a piece right after it is spawned. */
module Play {
  import opened Wrappers
  import opened Pieces
  import opened Grids
  import opened Boards

  /** A sideways move keeps the board valid: the grid is untouched and the piece only
      moves to a free, hence in-bounds, footprint. A downward move either moves it to a
      free footprint or places it again at the top. */
  lemma MoveKeepsValid(b: Board, direction: string)
    requires Valid(b)
    requires direction == "left" || direction == "right" || direction == "down" ==> b.active.Some?
    ensures Valid(MovePiece(b, direction))
  {
    var r := MovePiece(b, direction);
    if direction == "left" || direction == "right" {
      var to := Pos(Anchor(b).x + (if direction == "left" then -1 else 1), Anchor(b).y);
      if Free(b.grid, b.width, b.height, Active(b).shape, to) {
        FreeIsInBounds(b.grid, b.width, b.height, Active(b).shape, to);
      }
    } else if direction == "down" {
      var e := ClearActivePiece(b);
      var below := Pos(Anchor(b).x, Anchor(b).y + 1);
      if Free(e.grid, b.width, b.height, Active(b).shape, below) {
        FreeIsInBounds(e.grid, b.width, b.height, Active(b).shape, below);
      }
    }
  }

  /** An accepted rotation keeps the board valid: the new mask is a catalogue mask
      whose footprint at the anchor was free. */
  lemma RotateKeepsValid(b: Board, direction: string)
    requires Valid(b)
    ensures Valid(RotatePiece(b, direction))
  {
    if b.active.Some? && (direction == "left" || direction == "right") {
      var p := Active(b);
      var m := RotateRight(p);
      if Free(b.grid, b.width, b.height, m, Anchor(b)) {
        FreeIsInBounds(b.grid, b.width, b.height, m, Anchor(b));
        CatalogueIsTetrominoes(p.kind);
        TetrominoFits(b.width, b.height, m);
        assert Active(RotatePiece(b, direction)) == Turn(p);
      }
    }
  }

  /** Placing a piece onto cells that are empty and erasing it again gives back the
      grid as it was. */
  lemma ClearUndoesPlace(b: Board, p: Piece)
    requires Shaped(b.grid, b.width, b.height)
    requires SpawnFits(b.width, b.height, p.shape)
    requires forall y, x ::
      0 <= y < b.height && 0 <= x < b.width && Covers(p.shape, SpawnX(b.width, p.shape), 0, x, y) ==>
      b.grid[y][x].None?
    ensures ClearActivePiece(PlacePiece(b, p)).grid == b.grid
  {
    var r := PlacePiece(b, p);
    assert Anchor(r).x == SpawnX(b.width, p.shape);
    SameCells(ClearActivePiece(r).grid, b.grid, b.width, b.height);
  }

  /** A step left undone by a step right: when the piece's own footprint is free (it
      is not in the grid, as after a downward move) and the cells one column to the
      left are free, moving left and then right restores the board. */
  lemma LeftThenRight(b: Board)
    requires Shaped(b.grid, b.width, b.height) && Placed(b)
    requires Free(b.grid, b.width, b.height, Active(b).shape, Anchor(b))
    requires Free(b.grid, b.width, b.height, Active(b).shape, Pos(Anchor(b).x - 1, Anchor(b).y))
    ensures MovePiece(MovePiece(b, "left"), "right") == b
  {
    var l := MovePiece(b, "left");
    assert Pos(Anchor(l).x + 1, Anchor(l).y) == Anchor(b);
  }

  /** The spawn cell (row, col) of variant `k` whose right-hand neighbour is occupied
      too. */
  function PairAt(k: Kind): (rc: (nat, nat))
    ensures var m := SpawnShape(k);
      rc.0 < |m| && rc.1 + 1 < |m[rc.0]| && m[rc.0][rc.1] == 1 && m[rc.0][rc.1 + 1] == 1
  {
    match k
    case I => (0, 0)
    case O => (0, 0)
    case T => (1, 0)
    case L => (1, 0)
    case J => (1, 0)
    case S => (0, 1)
    case Z => (0, 0)
  }

  /** A spawn cell of variant `k` that its first rotation mask occupies too. */
  function TurnOverlap(k: Kind): (rc: (nat, nat))
    ensures var m := SpawnShape(k); var n := RotateRight(NewPiece(k));
      rc.0 < |m| && rc.1 < |m[rc.0]| && m[rc.0][rc.1] == 1 &&
      rc.0 < |n| && rc.1 < |n[rc.0]| && n[rc.0][rc.1] == 1
  {
    match k
    case I => (0, 0)
    case O => (0, 0)
    case T => (1, 0)
    case L => (0, 0)
    case J => (1, 0)
    case S => (1, 0)
    case Z => (0, 1)
  }

  /** A sideways move that lands an occupied mask cell on a coloured cell does
      nothing. */
  lemma ShiftOntoColourIsRefused(b: Board, direction: string, row: nat, col: nat)
    requires Shaped(b.grid, b.width, b.height) && Placed(b)
    requires direction == "left" || direction == "right"
    requires var m := Active(b).shape;
      row < |m| && col < |m[row]| && m[row][col] == 1
    requires var x := Anchor(b).x + (if direction == "left" then -1 else 1) + col;
      0 <= x < b.width && Anchor(b).y + row < b.height && b.grid[Anchor(b).y + row][x].Some?
    ensures MovePiece(b, direction) == b
  {
    var to := Pos(Anchor(b).x + (if direction == "left" then -1 else 1), Anchor(b).y);
    LandsOnColour(b.grid, b.width, b.height, Active(b).shape, to, row, col);
  }

  /** A piece just placed whose mask has two horizontally adjacent cells in row
      `row`, at `col` and `col + 1`, cannot move sideways: either shift lands one of the
      two on the other, which is already coloured in the grid. */
  lemma PlacedPairBlocksShift(b: Board, p: Piece, direction: string, row: nat, col: nat)
    requires Shaped(b.grid, b.width, b.height) && SpawnFits(b.width, b.height, p.shape)
    requires row < |p.shape| && col + 1 < |p.shape[row]|
    requires p.shape[row][col] == 1 && p.shape[row][col + 1] == 1
    requires direction == "left" || direction == "right"
    ensures MovePiece(PlacePiece(b, p), direction) == PlacePiece(b, p)
  {
    var r := PlacePiece(b, p);
    var m := p.shape;
    var at := Anchor(r);
    assert Active(r).shape == m && at.y == 0;
    if direction == "left" {
      assert Covers(m, at.x, 0, at.x + col, row);
      ShiftOntoColourIsRefused(r, direction, row, col + 1);
    } else {
      assert Covers(m, at.x, 0, at.x + col + 1, row);
      ShiftOntoColourIsRefused(r, direction, row, col);
    }
  }

  /** A piece just placed with its variant's spawn mask cannot move sideways, since
      every spawn mask has two horizontally adjacent cells. This holds after a new game
      and after a blocked drop of an unrotated piece alike. */
  lemma PlacedPieceCannotShift(b: Board, p: Piece, direction: string)
    requires Shaped(b.grid, b.width, b.height)
    requires p.shape == SpawnShape(p.kind) && SpawnFits(b.width, b.height, p.shape)
    requires direction == "left" || direction == "right"
    ensures MovePiece(PlacePiece(b, p), direction) == PlacePiece(b, p)
  {
    var (row, col) := PairAt(p.kind);
    PlacedPairBlocksShift(b, p, direction, row, col);
  }

  /** A piece just placed with its variant's spawn mask and counter 0 cannot rotate
      either way: its first rotation mask shares a cell with the spawn mask, which is
      coloured in the grid. */
  lemma PlacedPieceCannotRotate(b: Board, p: Piece, direction: string)
    requires Shaped(b.grid, b.width, b.height)
    requires p.shape == SpawnShape(p.kind) && p.rotation == 0 && SpawnFits(b.width, b.height, p.shape)
    ensures RotatePiece(PlacePiece(b, p), direction) == PlacePiece(b, p)
  {
    var r := PlacePiece(b, p);
    var m := p.shape;
    var at := Anchor(r);
    var n := RotateRight(Active(r));
    assert n == RotateRight(NewPiece(p.kind));
    var (row, col) := TurnOverlap(p.kind);
    assert r.grid[row][at.x + col].Some? by {
      assert Covers(m, at.x, 0, at.x + col, row);
    }
    LandsOnColour(r.grid, b.width, b.height, n, at, row, col);
  }

  /** Right after a new game the piece can neither move sideways nor rotate. */
  lemma NewGamePieceIsStuck(b: Board, pick: Kind, direction: string)
    requires SpawnFits(b.width, b.height, SpawnShape(pick))
    ensures var r := ResetGame(b, pick);
      RotatePiece(r, direction) == r &&
      (direction == "left" || direction == "right" ==> MovePiece(r, direction) == r)
  {
    var blank := b.(grid := EmptyGrid(b.width, b.height), active := None, score := 0, level := 1, paused := true);
    PlacedPieceCannotRotate(blank, NewPiece(pick), direction);
    if direction == "left" || direction == "right" {
      PlacedPieceCannotShift(blank, NewPiece(pick), direction);
    }
  }

  /** A fresh game is valid on every board at least 4 by 4, whatever piece is drawn. */
  lemma NewGameIsValid(b: Board, pick: Kind)
    requires 4 <= b.width && 4 <= b.height
    ensures SpawnFits(b.width, b.height, SpawnShape(pick))
    ensures Valid(ResetGame(b, pick))
  {
    CatalogueIsTetrominoes(pick);
    TetrominoFits(b.width, b.height, SpawnShape(pick));
  }
}
