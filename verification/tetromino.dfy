/** The piece catalogue: the seven tetromino variants, their spawn masks and colours,
    the rotation counter, and the hand-written rotation tables.

    The source has one class per variant; here a variant tag selects the entries of
    one table. A mask is a list of rows of 0/1 entries, and an entry equal to 1 is an
    occupied cell, exactly as the source tests it. */
module Pieces {
  import opened Wrappers

  datatype Kind = I | O | T | L | J | S | Z

  /** The colour names of the source, without any meaning attached. */
  datatype Color = Cyan | Yellow | Purple | Orange | Blue | Green | Red

  type Mask = seq<seq<int>>

  /** A top-left anchor in grid coordinates. Pieces start in row 0 and only move
      down, so the row is never negative. */
  datatype Pos = Pos(x: int, y: nat)

  /** A piece instance: its variant, current mask, rotation counter, colour and the
      anchor, which stays unset until the piece is placed on a board. */
  datatype Piece = Piece(kind: Kind, shape: Mask, rotation: int, color: Color, pos: Option<Pos>)

  // The masks of the catalogue. Index 0 is the spawn mask; the others are the
  // entries of the rotation tables.
  const IFlat: Mask := [[1, 1, 1, 1]]
  const IUpright: Mask := [[1], [1], [1], [1]]
  const OSquare: Mask := [[1, 1], [1, 1]]
  const T0: Mask := [[0, 1, 0], [1, 1, 1]]
  const T1: Mask := [[1, 0], [1, 1], [1, 0]]
  const T2: Mask := [[1, 1, 1], [0, 1, 0]]
  const T3: Mask := [[0, 1], [1, 1], [0, 1]]
  const L0: Mask := [[1, 0, 0], [1, 1, 1]]
  const L1: Mask := [[1, 1], [1, 0], [1, 0]]
  const L2: Mask := [[1, 1, 1], [0, 0, 1]]
  const L3: Mask := [[0, 1], [0, 1], [1, 1]]
  const J0: Mask := [[0, 0, 1], [1, 1, 1]]
  const J1: Mask := [[1, 0], [1, 0], [1, 1]]
  const J2: Mask := [[1, 1, 1], [1, 0, 0]]
  const J3: Mask := [[1, 1], [0, 1], [0, 1]]
  const S0: Mask := [[0, 1, 1], [1, 1, 0]]
  const S1: Mask := [[1, 0], [1, 1], [0, 1]]
  const Z0: Mask := [[1, 1, 0], [0, 1, 1]]
  const Z1: Mask := [[0, 1], [1, 1], [1, 0]]

  /** The mask each variant's constructor starts with. Every one lies flat: a single
      row of four for I, two rows otherwise, two columns wide for O and three for the rest. */
  function SpawnShape(k: Kind): (m: Mask)
    ensures |m| == (if k == I then 1 else 2)
    ensures forall r :: 0 <= r < |m| ==> |m[r]| == (if k == I then 4 else if k == O then 2 else 3)
  {
    match k
    case I => IFlat
    case O => OSquare
    case T => T0
    case L => L0
    case J => J0
    case S => S0
    case Z => Z0
  }

  function ColorOf(k: Kind): Color
  {
    match k
    case I => Cyan
    case O => Yellow
    case T => Purple
    case L => Orange
    case J => Blue
    case S => Green
    case Z => Red
  }

  /** Every variant has its own colour. */
  lemma ColoursDistinct(k1: Kind, k2: Kind)
    ensures ColorOf(k1) == ColorOf(k2) ==> k1 == k2
  {
  }

  /** Every mask a piece of variant `k` can carry: its spawn mask and its table entries. */
  function MasksOf(k: Kind): set<Mask>
  {
    match k
    case I => {IFlat, IUpright}
    case O => {OSquare}
    case T => {T0, T1, T2, T3}
    case L => {L0, L1, L2, L3}
    case J => {J0, J1, J2, J3}
    case S => {S0, S1}
    case Z => {Z0, Z1}
  }

  /** Number of occupied entries of one mask row. */
  function RowCells(row: seq<int>): nat
  {
    if |row| == 0 then 0 else (if row[0] == 1 then 1 else 0) + RowCells(row[1..])
  }

  /** Number of occupied entries of a mask. */
  function Cells(m: Mask): nat
  {
    if |m| == 0 then 0 else RowCells(m[0]) + Cells(m[1..])
  }

  /** A tetromino mask: rectangular, at most 4 by 4, entries 0 or 1, four occupied. */
  predicate IsTetromino(m: Mask)
  {
    && 0 < |m| <= 4
    && 0 < |m[0]| <= 4
    && (forall r :: 0 <= r < |m| ==> |m[r]| == |m[0]|)
    && (forall r, c :: 0 <= r < |m| && 0 <= c < |m[r]| ==> m[r][c] == 0 || m[r][c] == 1)
    && Cells(m) == 4
  }

  /** What holds of every piece in play: the counter is in {0, 1, 2, 3}, the mask is
      one of its variant's masks, and the colour is its variant's colour. */
  predicate PieceOk(p: Piece)
  {
    && 0 <= p.rotation < 4
    && p.shape in MasksOf(p.kind)
    && p.color == ColorOf(p.kind)
  }

  /** A freshly constructed piece: spawn mask, counter 0, no position yet. Every
      variant but I starts in step with its table; the I piece's first accepted turn
      hands it the mask it already has, and only then is it in step. */
  function NewPiece(k: Kind): (p: Piece)
    ensures PieceOk(p)
    ensures p.rotation == 0 && p.pos.None? && p.kind == k
    ensures Synced(p) <==> k != I
    ensures k == I ==> Turn(p).shape == p.shape && Synced(Turn(p))
  {
    Piece(k, SpawnShape(k), 0, ColorOf(k), None)
  }

  /** Advances the rotation counter by one quarter turn, modulo 4; nothing else changes. */
  function Rotate(p: Piece): (q: Piece)
    ensures 0 <= q.rotation < 4
    ensures 0 <= p.rotation < 4 ==> q.rotation == if p.rotation == 3 then 0 else p.rotation + 1
    ensures q == p.(rotation := q.rotation)
  {
    p.(rotation := (p.rotation + 1) % 4)
  }

  /** The rotation table of every variant but the square: the mask handed out when
      the counter reads `r`. T, L and J have one entry per counter value; I, S and Z
      look only at its parity. */
  function Table(k: Kind, r: int): (m: Mask)
    ensures m in MasksOf(k)
  {
    match k
    case O => OSquare
    case I => if r % 2 == 0 then IFlat else IUpright
    case T => if r == 0 then T1 else if r == 1 then T2 else if r == 2 then T3 else T0
    case L => if r == 0 then L1 else if r == 1 then L2 else if r == 2 then L3 else L0
    case J => if r == 0 then J1 else if r == 1 then J2 else if r == 2 then J3 else J0
    case S => if r % 2 == 0 then S1 else S0
    case Z => if r % 2 == 0 then Z1 else Z0
  }

  /** The candidate mask of a right rotation, read from the variant's table by the
      current counter; the square returns its current mask. The piece is not changed. */
  function RotateRight(p: Piece): (m: Mask)
    ensures PieceOk(p) ==> m in MasksOf(p.kind)
    ensures p.kind == O ==> m == p.shape
  {
    if p.kind == O then p.shape else Table(p.kind, p.rotation)
  }

  /** The candidate mask of a left rotation. The square returns its current mask and
      every other variant defers to its right-rotation table. */
  function RotateLeft(p: Piece): (m: Mask)
    ensures m == RotateRight(p)
  {
    if p.kind == O then p.shape else RotateRight(p)
  }

  /** The counter is in range and the piece carries the mask its table handed out
      when the counter last advanced, i.e. the entry for the previous counter value. */
  predicate Synced(p: Piece)
  {
    0 <= p.rotation < 4 && (p.kind != O ==> p.shape == Table(p.kind, (p.rotation + 3) % 4))
  }

  /** An accepted rotation: the candidate mask replaces the shape, then the counter
      advances. */
  function Turn(p: Piece): (q: Piece)
    ensures PieceOk(p) ==> PieceOk(q)
    ensures p.kind == O ==> q.shape == p.shape
    ensures q.pos == p.pos && q.kind == p.kind && q.color == p.color
  {
    Rotate(p.(shape := RotateRight(p)))
  }

  /** An accepted rotation keeps a piece in step with its table. */
  lemma TurnKeepsSynced(p: Piece)
    requires Synced(p)
    ensures Synced(Turn(p))
  {
    var r := p.rotation;
    assert Turn(p).rotation == (r + 1) % 4;
    assert ((r + 1) % 4 + 3) % 4 == r by {
      if r == 0 {} else if r == 1 {} else if r == 2 {} else {}
    }
  }

  /** `n` accepted rotations in a row. */
  function TurnN(p: Piece, n: nat): Piece
    decreases n
  {
    if n == 0 then p else TurnN(Turn(p), n - 1)
  }

  /** Four accepted rotations of a piece in step with its table bring it back exactly. */
  lemma FourTurnsRestore(p: Piece)
    requires Synced(p)
    ensures TurnN(p, 4) == p
  {
    var k, r := p.kind, p.rotation;
    var p1 := Turn(p);
    var p2 := Turn(p1);
    var p3 := Turn(p2);
    assert TurnN(p, 4) == Turn(p3) by {
      assert TurnN(p, 4) == TurnN(p1, 3) == TurnN(p2, 2) == TurnN(p3, 1);
    }
    assert p3.kind == k && p3.color == p.color && p3.pos == p.pos;
    assert p3.rotation == (r + 3) % 4 && Turn(p3).rotation == r by {
      if r == 0 {} else if r == 1 {} else if r == 2 {} else {}
    }
    if k == O {
      assert p3.shape == p.shape;
    } else {
      assert Turn(p3).shape == Table(k, (r + 3) % 4);
    }
  }

  /** Turning is periodic with period four. */
  lemma {:induction false} TurnPeriod(p: Piece, n: nat)
    requires Synced(p)
    ensures TurnN(p, n + 4) == TurnN(p, n)
    decreases n
  {
    if n == 0 {
      FourTurnsRestore(p);
    } else {
      TurnKeepsSynced(p);
      TurnPeriod(Turn(p), n - 1);
    }
  }

  /** Entries of a table that the counter tells apart are different masks. */
  lemma TableDistinct(k: Kind, r1: int, r2: int)
    requires k != O
    requires k in {T, L, J} ==> 0 <= r1 < 4 && 0 <= r2 < 4 && r1 != r2
    requires k in {I, S, Z} ==> r1 % 2 != r2 % 2
    ensures Table(k, r1) != Table(k, r2)
  {
    match k
    case I => assert |IFlat| != |IUpright|;
    case S => assert |S0| != |S1|;
    case Z => assert |Z0| != |Z1|;
    case T => assert T0[0][0] != T2[0][0] && T1[0][0] != T3[0][0] && |T0| != |T1|;
    case L => assert L0[0][1] != L2[0][1] && L1[0][0] != L3[0][0] && |L0| != |L1|;
    case J => assert J0[0][0] != J2[0][0] && J1[0][1] != J3[0][1] && |J0| != |J1|;
  }

  /** The I, S and Z tables look only at the counter's parity. */
  lemma TableParity(k: Kind, r1: int, r2: int)
    requires k in {I, S, Z} && r1 % 2 == r2 % 2
    ensures Table(k, r1) == Table(k, r2)
  {
  }

  /** An accepted rotation of an I, S or Z piece in step with its table changes its
      mask. */
  lemma TurnFlipsMask(p: Piece)
    requires Synced(p) && p.kind in {I, S, Z}
    ensures Turn(p).shape != p.shape
  {
    var k, r := p.kind, p.rotation;
    var before := (r + 3) % 4;
    assert r % 2 != before % 2 by {
      if r == 0 {} else if r == 1 {} else if r == 2 {} else {}
    }
    assert p.shape == Table(k, before);
    assert Turn(p).shape == Table(k, r);
    TableDistinct(k, r, before);
  }

  /** Two accepted rotations of an I, S or Z piece in step with its table bring its
      mask back. */
  lemma TwoTurnsRestoreMask(p: Piece)
    requires Synced(p) && p.kind in {I, S, Z}
    ensures TurnN(p, 2).shape == p.shape
  {
    var k, r := p.kind, p.rotation;
    var before, after := (r + 3) % 4, (r + 1) % 4;
    assert after % 2 == before % 2 by {
      if r == 0 {} else if r == 1 {} else if r == 2 {} else {}
    }
    assert p.shape == Table(k, before);
    assert TurnN(p, 2).shape == Table(k, after) by {
      assert TurnN(p, 2) == Turn(Turn(p));
    }
    TableParity(k, after, before);
  }

  /** The T, L and J pieces visit four different masks in four accepted rotations. */
  lemma FourTurnsFourMasks(p: Piece)
    requires Synced(p) && p.kind in {T, L, J}
    ensures var p1 := Turn(p); var p2 := Turn(p1); var p3 := Turn(p2);
      p.shape != p1.shape && p.shape != p2.shape && p.shape != p3.shape &&
      p1.shape != p2.shape && p1.shape != p3.shape && p2.shape != p3.shape
  {
    var k, r := p.kind, p.rotation;
    var p1 := Turn(p);
    var p2 := Turn(p1);
    var p3 := Turn(p2);
    assert p1.shape == Table(k, r) && p2.shape == Table(k, (r + 1) % 4) && p3.shape == Table(k, (r + 2) % 4);
    TableDistinct(k, (r + 3) % 4, r);
    TableDistinct(k, (r + 3) % 4, (r + 1) % 4);
    TableDistinct(k, (r + 3) % 4, (r + 2) % 4);
    TableDistinct(k, r, (r + 1) % 4);
    TableDistinct(k, r, (r + 2) % 4);
    TableDistinct(k, (r + 1) % 4, (r + 2) % 4);
  }

  /** What accepted rotations do to a fresh piece: every variant but I is back where it
      started after four, and S and Z have their spawn mask again after two. The I piece
      is not: its first rotation keeps the flat mask, so after four it stands upright. */
  lemma FreshPieceTurns(k: Kind)
    ensures k != I ==> TurnN(NewPiece(k), 4) == NewPiece(k)
    ensures k in {S, Z} ==> TurnN(NewPiece(k), 2).shape == SpawnShape(k)
    ensures k == I ==> TurnN(NewPiece(k), 4).shape == IUpright != SpawnShape(k)
  {
    var p := NewPiece(k);
    if k != I {
      FourTurnsRestore(p);
    }
    if k in {S, Z} {
      TwoTurnsRestoreMask(p);
    }
    if k == I {
      var p1 := Turn(p);
      TurnKeepsSynced(p1);
      TwoTurnsRestoreMask(p1);
      assert TurnN(p, 4) == TurnN(p1, 3) == TurnN(TurnN(p1, 2), 1) by {
        assert TurnN(p1, 3) == TurnN(Turn(p1), 2) == TurnN(Turn(Turn(p1)), 1);
        assert TurnN(p1, 2) == Turn(Turn(p1));
      }
      assert TurnN(p1, 2).shape == IFlat;
      TurnFlipsMask(TurnN(p1, 2));
    }
  }

  // The catalogue masks, checked a variant at a time.
  lemma MaskFactsI() ensures IsTetromino(IFlat) && IsTetromino(IUpright) {}
  lemma MaskFactsO() ensures IsTetromino(OSquare) {}
  lemma MaskFactsT01() ensures IsTetromino(T0) && IsTetromino(T1) {}
  lemma MaskFactsT23() ensures IsTetromino(T2) && IsTetromino(T3) {}
  lemma MaskFactsL01() ensures IsTetromino(L0) && IsTetromino(L1) {}
  lemma MaskFactsL23() ensures IsTetromino(L2) && IsTetromino(L3) {}
  lemma MaskFactsJ01() ensures IsTetromino(J0) && IsTetromino(J1) {}
  lemma MaskFactsJ23() ensures IsTetromino(J2) && IsTetromino(J3) {}
  lemma MaskFactsS() ensures IsTetromino(S0) && IsTetromino(S1) {}
  lemma MaskFactsZ() ensures IsTetromino(Z0) && IsTetromino(Z1) {}

  /** The masks of variant `k` are tetrominoes, for each variant in turn. */
  predicate AllTetrominoes(ms: set<Mask>)
  {
    forall m :: m in ms ==> IsTetromino(m)
  }

  lemma MasksOfI() ensures AllTetrominoes(MasksOf(I)) { MaskFactsI(); }
  lemma MasksOfO() ensures AllTetrominoes(MasksOf(O)) { MaskFactsO(); }
  lemma MasksOfT() ensures AllTetrominoes(MasksOf(T)) { MaskFactsT01(); MaskFactsT23(); }
  lemma MasksOfL() ensures AllTetrominoes(MasksOf(L)) { MaskFactsL01(); MaskFactsL23(); }
  lemma MasksOfJ() ensures AllTetrominoes(MasksOf(J)) { MaskFactsJ01(); MaskFactsJ23(); }
  lemma MasksOfS() ensures AllTetrominoes(MasksOf(S)) { MaskFactsS(); }
  lemma MasksOfZ() ensures AllTetrominoes(MasksOf(Z)) { MaskFactsZ(); }

  /** Every spawn mask and every table entry is a rectangular mask with four cells. */
  lemma CatalogueIsTetrominoes(k: Kind)
    ensures SpawnShape(k) in MasksOf(k)
    ensures forall m :: m in MasksOf(k) ==> IsTetromino(m)
  {
    match k
    case I => MasksOfI();
    case O => MasksOfO();
    case T => MasksOfT();
    case L => MasksOfL();
    case J => MasksOfJ();
    case S => MasksOfS();
    case Z => MasksOfZ();
  }
}
