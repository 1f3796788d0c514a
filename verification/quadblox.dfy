/**
 * The game core of quadblox.c: the board array, the active piece and its
 * scratch copy, the score and line counters, and the operations that one frame
 * of play runs on them. Key presses, the tick and the random draws are inputs.
 */
module QuadBlox {
  import opened Grid
  import opened Pieces

  /** The board array read as rows: RowsOf(a)[y][x] is a[x, y]. */
  ghost function RowsOf(a: array2<int>): (g: Grid)
    reads a
    requires a.Length0 == Width && a.Length1 == Height
    ensures IsGrid(g)
    ensures forall y, x :: 0 <= y < Height && 0 <= x < Width ==> g[y][x] == a[x, y]
  {
    seq(Height, y requires 0 <= y < Height reads a =>
      seq(Width, x requires 0 <= x < Width reads a => a[x, y]))
  }

  // ---------------------------------------------------------------------------
  // Collision (quadblox.c detectSwapPieceCollision)

  /**
   * Frame cell (x, y) of p collides: it is occupied and its board cell lies
   * left or right of the board, below the bottom row, or on a tile. A row above
   * the top is never tested; anchors here are never above row 0.
   */
  predicate CellCollides(g: Grid, p: Piece, x: int, y: int)
    requires IsGrid(g) && IsFrame(p.blocks) && p.y >= 0 && 0 <= x < 4 && 0 <= y < 4
  {
    p.blocks[x][y] != 0 &&
    (p.x + x >= Width || p.x + x < 0 || p.y + y >= Height || g[p.y + y][p.x + x] != 0)
  }

  predicate Collides(g: Grid, p: Piece)
    requires IsGrid(g) && IsFrame(p.blocks) && p.y >= 0
  {
    exists x, y :: 0 <= x < 4 && 0 <= y < 4 && CellCollides(g, p, x, y)
  }

  /** Every occupied cell of p lies on the board. */
  predicate InBoard(p: Piece)
    requires IsFrame(p.blocks)
  {
    forall x, y :: 0 <= x < 4 && 0 <= y < 4 && p.blocks[x][y] != 0 ==>
      0 <= p.x + x < Width && 0 <= p.y + y < Height
  }

  /** Independent reading of "no collision": p lies on the board over empty cells. */
  predicate Fits(g: Grid, p: Piece)
    requires IsGrid(g) && IsFrame(p.blocks)
  {
    InBoard(p) &&
    forall x, y :: 0 <= x < 4 && 0 <= y < 4 && p.blocks[x][y] != 0 ==> g[p.y + y][p.x + x] == 0
  }

  /** The collision test fails exactly when the candidate fits. */
  lemma CollidesIffNoFit(g: Grid, p: Piece)
    requires IsGrid(g) && IsFrame(p.blocks) && p.y >= 0
    ensures Collides(g, p) <==> !Fits(g, p)
  {
    if !Fits(g, p) {
      var x, y :| 0 <= x < 4 && 0 <= y < 4 && p.blocks[x][y] != 0 &&
        !(0 <= p.x + x < Width && 0 <= p.y + y < Height && g[p.y + y][p.x + x] == 0);
      assert CellCollides(g, p, x, y);
    }
  }

  /** The active piece as every operation keeps it. */
  predicate Active(p: Piece) {
    IsFrame(p.blocks) && p.y >= 0 && InBoard(p)
    && OccupiedCount(p.blocks) == 4 && ColoursOk(p.blocks)
  }

  /**
   * A spawned piece is active: four cells of the drawn colour, on the board in
   * columns SpawnColumn..SpawnColumn+2 and rows 0..3. It is not tested against
   * the board, so it may overlap tiles already there.
   */
  lemma SpawnedIsActive(shape: int, colour: int)
    requires 1 <= shape <= 7 && 1 <= colour <= MaxColour
    ensures var p := Spawned(shape, colour);
      && Active(p) && p.x == SpawnColumn && p.y == 0
      && forall x, y :: 0 <= x < 4 && 0 <= y < 4 && p.blocks[x][y] != 0 ==>
           && p.blocks[x][y] == colour
           && SpawnColumn <= p.x + x <= SpawnColumn + 2 && p.y + y <= 3
  {
    SpawnedFacts(shape, colour);
  }

  // ---------------------------------------------------------------------------
  // Key handling (quadblox.c sceneBoard, rotatePiece)

  /** One press of the rotate key: the normalised quarter turn unless it collides. */
  function TurnStep(g: Grid, p: Piece): (q: Piece)
    requires IsGrid(g) && IsFrame(p.blocks) && p.y >= 0 && OccupiedCount(p.blocks) > 0
    ensures IsFrame(q.blocks) && q.x == p.x && q.y == p.y
  {
    TurnedKeepsTiles(p.blocks);
    var turned := p.(blocks := Normalized(Rotated(p.blocks)));
    if Collides(g, turned) then p else turned
  }

  /**
   * The rotate key takes the quarter turn, normalised at the same anchor,
   * exactly when it fits the board, and otherwise leaves the piece; either way
   * the tile count and the colour range are kept.
   */
  lemma TurnStepFits(g: Grid, p: Piece)
    requires IsGrid(g) && IsFrame(p.blocks) && p.y >= 0 && OccupiedCount(p.blocks) > 0
    ensures var q := TurnStep(g, p);
      var turned := p.(blocks := Normalized(Rotated(p.blocks)));
      && (Fits(g, turned) ==> q == turned)
      && (!Fits(g, turned) ==> q == p)
      && OccupiedCount(q.blocks) == OccupiedCount(p.blocks)
      && (ColoursOk(p.blocks) ==> ColoursOk(q.blocks))
  {
    TurnedKeepsTiles(p.blocks);
    CollidesIffNoFit(g, p.(blocks := Normalized(Rotated(p.blocks))));
  }

  /** One press of the left (dx = -1) or right (dx = 1) key: move unless that collides. */
  function MoveStep(g: Grid, p: Piece, dx: int): (q: Piece)
    requires IsGrid(g) && IsFrame(p.blocks) && p.y >= 0
    ensures q.blocks == p.blocks && q.y == p.y && (q.x == p.x || q.x == p.x + dx)
  {
    var moved := p.(x := p.x + dx);
    if Collides(g, moved) then p else moved
  }

  /** A sideways key moves the piece one column exactly when the moved piece fits the board. */
  lemma MoveStepFits(g: Grid, p: Piece, dx: int)
    requires IsGrid(g) && IsFrame(p.blocks) && p.y >= 0
    ensures var q := MoveStep(g, p, dx);
      var moved := p.(x := p.x + dx);
      && (Fits(g, moved) ==> q == moved)
      && (!Fits(g, moved) ==> q == p)
  {
    CollidesIffNoFit(g, p.(x := p.x + dx));
  }

  /** The key half of one frame: rotate, then left, then right, each only when pressed. */
  function KeyStep(g: Grid, p: Piece, rotateKey: bool, leftKey: bool, rightKey: bool): (q: Piece)
    requires IsGrid(g) && IsFrame(p.blocks) && p.y >= 0 && OccupiedCount(p.blocks) > 0
    ensures IsFrame(q.blocks) && q.y == p.y
  {
    var p1 := if rotateKey then TurnStep(g, p) else p;
    var p2 := if leftKey then MoveStep(g, p1, -1) else p1;
    if rightKey then MoveStep(g, p2, 1) else p2
  }

  /**
   * The keys never move an active piece off the board or onto a tile: the
   * piece is either unchanged or fits, stays active, and keeps its row.
   */
  lemma KeyStepKeepsActive(g: Grid, p: Piece, rotateKey: bool, leftKey: bool, rightKey: bool)
    requires IsGrid(g) && Active(p)
    ensures var q := KeyStep(g, p, rotateKey, leftKey, rightKey);
      && Active(q) && q.y == p.y
      && (q == p || Fits(g, q))
      && (!(rotateKey || leftKey || rightKey) ==> q == p)
  {
    var p1 := if rotateKey then TurnStep(g, p) else p;
    TurnStepFits(g, p);
    assert Active(p1) && (p1 == p || Fits(g, p1));
    var p2 := if leftKey then MoveStep(g, p1, -1) else p1;
    MoveStepFits(g, p1, -1);
    assert Active(p2) && (p2 == p || Fits(g, p2));
    MoveStepFits(g, p2, 1);
  }

  // ---------------------------------------------------------------------------
  // Locking (quadblox.c placePiece)

  /** Board cell (tx, ty) lies under an occupied cell of p. */
  predicate Covers(p: Piece, tx: int, ty: int)
    requires IsFrame(p.blocks)
  {
    0 <= tx - p.x < 4 && 0 <= ty - p.y < 4 && p.blocks[tx - p.x][ty - p.y] != 0
  }

  /** The board after writing every occupied cell of p into it. */
  function Placed(g: Grid, p: Piece): (h: Grid)
    requires IsGrid(g) && IsFrame(p.blocks)
    ensures IsGrid(h)
  {
    seq(Height, ty requires 0 <= ty < Height =>
      seq(Width, tx requires 0 <= tx < Width =>
        if Covers(p, tx, ty) then p.blocks[tx - p.x][ty - p.y] else g[ty][tx]))
  }

  /** The set of occupied board cells, as (x, y). */
  function Tiles(g: Grid): set<(int, int)>
    requires IsGrid(g)
  {
    set ty, tx | 0 <= ty < Height && 0 <= tx < Width && g[ty][tx] != 0 :: (tx, ty)
  }

  /** The board cells under the occupied cells of p. */
  function PieceTiles(p: Piece): set<(int, int)>
    requires IsFrame(p.blocks)
  {
    set x, y | 0 <= x < 4 && 0 <= y < 4 && p.blocks[x][y] != 0 :: (p.x + x, p.y + y)
  }

  /**
   * Locking an on-board piece adds exactly its cells to the board's tiles,
   * each with the piece's colour, and leaves every other cell as it was; when
   * the piece fits, none of its cells was a tile before.
   */
  lemma LockAddsPieceTiles(g: Grid, p: Piece)
    requires IsGrid(g) && IsFrame(p.blocks) && InBoard(p)
    ensures Tiles(Placed(g, p)) == Tiles(g) + PieceTiles(p)
    ensures forall x, y :: 0 <= x < 4 && 0 <= y < 4 && p.blocks[x][y] != 0 ==>
      Placed(g, p)[p.y + y][p.x + x] == p.blocks[x][y]
    ensures forall tx, ty :: 0 <= ty < Height && 0 <= tx < Width && !Covers(p, tx, ty) ==>
      Placed(g, p)[ty][tx] == g[ty][tx]
    ensures Fits(g, p) ==> Tiles(g) * PieceTiles(p) == {}
  {
    var h := Placed(g, p);
    forall c | c in Tiles(h)
      ensures c in Tiles(g) + PieceTiles(p)
    {
      var tx, ty := c.0, c.1;
      if Covers(p, tx, ty) {
        assert (p.x + (tx - p.x), p.y + (ty - p.y)) in PieceTiles(p);
      }
    }
    forall c | c in PieceTiles(p)
      ensures c in Tiles(h)
    {
      var x, y :| 0 <= x < 4 && 0 <= y < 4 && p.blocks[x][y] != 0 && c == (p.x + x, p.y + y);
      assert Covers(p, p.x + x, p.y + y);
    }
    forall c | c in Tiles(g)
      ensures c in Tiles(h)
    {
      var tx, ty := c.0, c.1;
      if Covers(p, tx, ty) {
        assert h[ty][tx] == p.blocks[tx - p.x][ty - p.y];
      }
    }
  }

  /**
   * On a board with no full row from row 1 down, one lock leaves at most four
   * full rows there: only the piece's own four rows can fill.
   */
  lemma LockFillsAtMostFourRows(g: Grid, p: Piece)
    requires IsGrid(g) && NoFullRows(g) && IsFrame(p.blocks)
    ensures FullRows(Placed(g, p)[1..]) <= 4
  {
    var h := Placed(g, p);
    var s := h[1..];
    forall ty | 0 <= ty < Height && !(p.y <= ty < p.y + 4)
      ensures h[ty] == g[ty]
    {
      assert forall tx :: 0 <= tx < Width ==> h[ty][tx] == g[ty][tx];
    }
    FullRowsInWindow(s, p.y - 1);
  }

  /** Every board cell holds a colour index 0..8. */
  ghost predicate Coloured(a: array2<int>)
    reads a
  {
    a.Length0 == Width && a.Length1 == Height && ColoursOk(RowsOf(a))
  }

  /** No row from row 1 down is full. */
  ghost predicate Settled(a: array2<int>)
    reads a
  {
    a.Length0 == Width && a.Length1 == Height && NoFullRows(RowsOf(a))
  }

  // ---------------------------------------------------------------------------
  // The game state (quadblox.c globals board, piece, swapPiece, score, lines)

  class Game {
    var board: array2<int>
    var piece: Piece
    var swapPiece: Piece
    var score: int
    var lines: int

    ghost predicate Shaped()
      reads this
    {
      board.Length0 == Width && board.Length1 == Height
    }

    /** The state every operation keeps, before and during play. */
    ghost predicate Ready()
      reads this, board
    {
      Shaped() && Coloured(board)
      && IsFrame(piece.blocks) && IsFrame(swapPiece.blocks)
      && 0 <= score && 0 <= lines
    }

    /**
     * The state during play: an active piece on the board, below row 0 at no
     * point above it, and no full row from row 1 down.
     */
    ghost predicate Playing()
      reads this, board
    {
      Ready() && Active(piece) && Settled(board)
    }

    /** The zero-initialised globals at program start. */
    constructor ()
      ensures Ready() && fresh(board)
      ensures RowsOf(board) == Repeat(EmptyRow(), Height)
      ensures score == 0 && lines == 0
    {
      board := new int[Width, Height]((x, y) => 0);
      piece := Piece(EmptyFrame(), 0, 0);
      swapPiece := Piece(EmptyFrame(), 0, 0);
      score := 0;
      lines := 0;
      new;
      SameGrid(RowsOf(board), Repeat(EmptyRow(), Height));
    }

    /** detectSwapPieceCollision: the scan with early returns. */
    method DetectSwapPieceCollision() returns (hit: bool)
      requires Shaped() && IsFrame(swapPiece.blocks) && swapPiece.y >= 0
      ensures hit == Collides(RowsOf(board), swapPiece)
    {
      ghost var g := RowsOf(board);
      for x := 0 to 4
        invariant forall x', y' :: 0 <= x' < x && 0 <= y' < 4 ==> !CellCollides(g, swapPiece, x', y')
      {
        for y := 0 to 4
          invariant forall x', y' :: 0 <= x' < x && 0 <= y' < 4 ==> !CellCollides(g, swapPiece, x', y')
          invariant forall y' :: 0 <= y' < y ==> !CellCollides(g, swapPiece, x, y')
        {
          if swapPiece.blocks[x][y] != 0 {
            var tx := swapPiece.x + x;
            var ty := swapPiece.y + y;
            if tx >= Width || tx < 0 || ty >= Height || board[tx, ty] != 0 {
              assert CellCollides(g, swapPiece, x, y);
              return true;
            }
          }
        }
      }
      return false;
    }

    /** One pass of positionPiece's left shift: columns 1..3 move to 0..2, column 3 empties. */
    method ShiftLeft()
      requires IsFrame(piece.blocks)
      modifies this`piece
      ensures piece.x == old(piece).x && piece.y == old(piece).y
      ensures piece.blocks == Translate(old(piece.blocks), 1, 0)
    {
      ghost var t := piece.blocks;
      for i := 1 to 4
        invariant IsFrame(piece.blocks) && piece.x == old(piece).x && piece.y == old(piece).y
        invariant forall k :: 0 <= k < i - 1 ==> piece.blocks[k] == t[k + 1]
        invariant forall k :: i - 1 <= k < 4 ==> piece.blocks[k] == t[k]
      {
        piece := piece.(blocks := piece.blocks[i - 1 := piece.blocks[i]]);
      }
      piece := piece.(blocks := piece.blocks[3 := [0, 0, 0, 0]]);
      SameFrame(piece.blocks, Translate(t, 1, 0));
    }

    /** One pass of positionPiece's up shift: rows 1..3 move to 0..2, row 3 empties. */
    method ShiftUp()
      requires IsFrame(piece.blocks)
      modifies this`piece
      ensures piece.x == old(piece).x && piece.y == old(piece).y
      ensures piece.blocks == Translate(old(piece.blocks), 0, 1)
    {
      ghost var t := piece.blocks;
      for i := 1 to 4
        invariant IsFrame(piece.blocks) && piece.x == old(piece).x && piece.y == old(piece).y
        invariant forall x, k :: 0 <= x < 4 && 0 <= k < i - 1 ==> piece.blocks[x][k] == t[x][k + 1]
        invariant forall x, k :: 0 <= x < 4 && i - 1 <= k < 4 ==> piece.blocks[x][k] == t[x][k]
      {
        piece := piece.(blocks := SetCell(piece.blocks, 0, i - 1, piece.blocks[0][i]));
        piece := piece.(blocks := SetCell(piece.blocks, 1, i - 1, piece.blocks[1][i]));
        piece := piece.(blocks := SetCell(piece.blocks, 2, i - 1, piece.blocks[2][i]));
        piece := piece.(blocks := SetCell(piece.blocks, 3, i - 1, piece.blocks[3][i]));
      }
      piece := piece.(blocks := SetCell(piece.blocks, 0, 3, 0));
      piece := piece.(blocks := SetCell(piece.blocks, 1, 3, 0));
      piece := piece.(blocks := SetCell(piece.blocks, 2, 3, 0));
      piece := piece.(blocks := SetCell(piece.blocks, 3, 3, 0));
      SameFrame(piece.blocks, Translate(t, 0, 1));
    }

    /** The left-shift loop of positionPiece: shift until column 0 holds a tile. */
    method AlignLeft() returns (ghost lefts: nat)
      requires IsFrame(piece.blocks) && OccupiedCount(piece.blocks) > 0
      modifies this`piece
      ensures piece.x == old(piece).x && piece.y == old(piece).y
      ensures lefts == FirstColumn(old(piece.blocks))
      ensures piece.blocks == Translate(old(piece.blocks), lefts, 0)
    {
      ghost var f := piece.blocks;
      SameFrame(f, Translate(f, 0, 0));
      lefts := 0;
      LeftShiftGuard(f, lefts);
      while ColumnEmpty(piece.blocks, 0)
        invariant lefts <= FirstColumn(f)
        invariant piece.x == old(piece).x && piece.y == old(piece).y
        invariant piece.blocks == Translate(f, lefts, 0)
        invariant ColumnEmpty(piece.blocks, 0) <==> lefts < FirstColumn(f)
        decreases FirstColumn(f) - lefts
      {
        ShiftLeft();
        TranslateTwice(f, lefts, 0, 1, 0);
        lefts := lefts + 1;
        LeftShiftGuard(f, lefts);
      }
    }

    /** The up-shift loop of positionPiece, on a frame f already shifted left. */
    method AlignTop(ghost f: Frame) returns (ghost ups: nat)
      requires IsFrame(f) && OccupiedCount(f) > 0
      requires piece.blocks == Translate(f, FirstColumn(f), 0)
      modifies this`piece
      ensures piece.x == old(piece).x && piece.y == old(piece).y
      ensures ups == FirstRow(f)
      ensures piece.blocks == Translate(f, FirstColumn(f), ups)
    {
      ups := 0;
      UpShiftGuard(f, ups);
      while RowEmpty(piece.blocks, 0)
        invariant ups <= FirstRow(f)
        invariant piece.x == old(piece).x && piece.y == old(piece).y
        invariant piece.blocks == Translate(f, FirstColumn(f), ups)
        invariant RowEmpty(piece.blocks, 0) <==> ups < FirstRow(f)
        decreases FirstRow(f) - ups
      {
        ShiftUp();
        TranslateTwice(f, FirstColumn(f), ups, 0, 1);
        ups := ups + 1;
        UpShiftGuard(f, ups);
      }
    }

    /**
     * positionPiece: shift the active frame left while column 0 is empty, then
     * up while row 0 is empty, so that it touches the frame's top-left corner.
     */
    method PositionPiece() returns (ghost lefts: nat, ghost ups: nat)
      requires IsFrame(piece.blocks) && OccupiedCount(piece.blocks) > 0
      modifies this`piece
      ensures piece == old(piece).(blocks := Normalized(old(piece.blocks)))
      ensures lefts == FirstColumn(old(piece.blocks)) <= 3
      ensures ups == FirstRow(old(piece.blocks)) <= 3
    {
      ghost var f := piece.blocks;
      lefts := AlignLeft();
      ups := AlignTop(f);
    }

    /** The turning loop of rotatePiece: the scratch piece gets the active frame turned. */
    method TurnIntoSwap()
      requires IsFrame(piece.blocks) && IsFrame(swapPiece.blocks)
      modifies this`swapPiece
      ensures swapPiece == piece.(blocks := Rotated(piece.blocks))
    {
      swapPiece := swapPiece.(x := piece.x, y := piece.y);
      for x := 0 to 4
        invariant IsFrame(swapPiece.blocks) && swapPiece.x == piece.x && swapPiece.y == piece.y
        invariant forall x', y' :: 0 <= x' < x && 0 <= y' < 4 ==> swapPiece.blocks[3 - x'][y'] == piece.blocks[y'][x']
      {
        for y := 0 to 4
          invariant IsFrame(swapPiece.blocks) && swapPiece.x == piece.x && swapPiece.y == piece.y
          invariant forall x', y' :: 0 <= x' < x && 0 <= y' < 4 ==> swapPiece.blocks[3 - x'][y'] == piece.blocks[y'][x']
          invariant forall y' :: 0 <= y' < y ==> swapPiece.blocks[3 - x][y'] == piece.blocks[y'][x]
        {
          swapPiece := swapPiece.(blocks := SetCell(swapPiece.blocks, 3 - x, y, piece.blocks[y][x]));
        }
      }
      RotatedMovesCells(piece.blocks);
      SameFrame(swapPiece.blocks, Rotated(piece.blocks));
    }

    /**
     * The proposal half of rotatePiece: the active frame is turned into the
     * scratch piece, that becomes the active piece, is normalised, and is copied
     * back into the scratch piece.
     */
    method ProposeTurn()
      requires Active(piece) && IsFrame(swapPiece.blocks)
      modifies this`piece, this`swapPiece
      ensures piece == old(piece).(blocks := Normalized(Rotated(old(piece).blocks)))
      ensures swapPiece == piece
      ensures IsFrame(piece.blocks) && OccupiedCount(piece.blocks) == 4 && ColoursOk(piece.blocks)
    {
      TurnedKeepsTiles(piece.blocks);
      TurnIntoSwap();
      piece := swapPiece;
      ghost var lefts, ups := PositionPiece();
      swapPiece := piece;
    }

    /**
     * rotatePiece: propose the turned frame, normalised, and keep it unless it
     * collides, in which case the backup is restored.
     */
    method RotatePiece()
      requires Playing()
      modifies this`piece, this`swapPiece
      ensures Playing()
      ensures var turned := old(piece).(blocks := Normalized(Rotated(old(piece).blocks)));
        && swapPiece == turned
        && piece == TurnStep(RowsOf(board), old(piece))
    {
      var backup := piece;
      ProposeTurn();
      var hit := DetectSwapPieceCollision();
      if hit {
        piece := backup;
      } else {
        CollidesIffNoFit(RowsOf(board), swapPiece);
      }
    }

    /**
     * The left and right moves of sceneBoard: the scratch piece is the active
     * one moved dx columns, and it replaces the active piece unless it collides.
     */
    method MoveSideways(dx: int)
      requires Playing() && (dx == -1 || dx == 1)
      modifies this`piece, this`swapPiece
      ensures Playing()
      ensures swapPiece == old(piece).(x := old(piece).x + dx)
      ensures piece == MoveStep(RowsOf(board), old(piece), dx)
    {
      ghost var g := RowsOf(board);
      swapPiece := piece;
      swapPiece := swapPiece.(x := swapPiece.x + dx);
      var hit := DetectSwapPieceCollision();
      assert hit == Collides(g, swapPiece);
      if !hit {
        CollidesIffNoFit(g, swapPiece);
        piece := swapPiece;
      }
      assert piece == MoveStep(g, old(piece), dx);
    }

    /** generatePiece: stamp one of the seven shapes at the spawn point. */
    method GeneratePiece(shape: int, colour: int)
      requires 1 <= shape <= 7 && 1 <= colour <= MaxColour
      modifies this`piece
      ensures piece == Spawned(shape, colour) && Active(piece)
    {
      var k := colour;
      piece := Piece(EmptyFrame(), SpawnColumn, 0);
      var b := piece.blocks;
      match shape {
        case 1 => // straight line
          b := SetCell(b, 1, 0, k); b := SetCell(b, 1, 1, k);
          b := SetCell(b, 1, 2, k); b := SetCell(b, 1, 3, k);
        case 2 => // square
          b := SetCell(b, 1, 1, k); b := SetCell(b, 1, 2, k);
          b := SetCell(b, 2, 1, k); b := SetCell(b, 2, 2, k);
        case 3 => // T
          b := SetCell(b, 1, 1, k); b := SetCell(b, 2, 1, k);
          b := SetCell(b, 3, 1, k); b := SetCell(b, 2, 2, k);
        case 4 => // S
          b := SetCell(b, 2, 0, k); b := SetCell(b, 3, 0, k);
          b := SetCell(b, 1, 1, k); b := SetCell(b, 2, 1, k);
        case 5 => // backwards S
          b := SetCell(b, 1, 0, k); b := SetCell(b, 2, 0, k);
          b := SetCell(b, 2, 1, k); b := SetCell(b, 3, 1, k);
        case 6 => // L
          b := SetCell(b, 1, 1, k); b := SetCell(b, 1, 2, k);
          b := SetCell(b, 1, 3, k); b := SetCell(b, 2, 3, k);
        case 7 => // backwards L
          b := SetCell(b, 1, 1, k); b := SetCell(b, 1, 2, k);
          b := SetCell(b, 1, 3, k); b := SetCell(b, 2, 1, k);
      }
      SameFrame(b, ShapeFrame(shape, k));
      piece := piece.(blocks := b);
      ShapeFrameFacts(shape, colour);
      ghost var lefts, ups := PositionPiece();
      SpawnedIsActive(shape, colour);
    }

    /** The full-row test of clearLines for row y (every column non-zero). */
    method IsRowFull(y: int) returns (full: bool)
      requires Shaped() && 0 <= y < Height
      ensures full == RowFull(RowsOf(board)[y])
    {
      full := true;
      for x := 0 to Width
        invariant full == forall x' :: 0 <= x' < x ==> board[x', y] != 0
      {
        if board[x, y] == 0 {
          full := false;
        }
      }
    }

    /** The shift of clearLines for a full row y: rows y down to 2 take the row above. */
    method ShiftRowsDown(y: int)
      requires Shaped() && 1 <= y < Height
      modifies board
      ensures RowsOf(board) == ShiftDown(old(RowsOf(board)), y)
    {
      ghost var g := RowsOf(board);
      var ys := y;
      while ys > 1
        invariant 1 <= ys <= y
        invariant forall tx, ty :: 0 <= tx < Width && 0 <= ty < Height ==>
          board[tx, ty] == if ys < ty <= y then g[ty - 1][tx] else g[ty][tx]
      {
        for xs := 0 to Width
          invariant forall tx, ty :: 0 <= tx < Width && 0 <= ty < Height ==>
            board[tx, ty] == if ys < ty <= y || (ty == ys && tx < xs) then g[ty - 1][tx] else g[ty][tx]
        {
          board[xs, ys] := board[xs, ys - 1];
        }
        ys := ys - 1;
      }
      SameGrid(RowsOf(board), ShiftDown(g, y));
    }

    /**
     * clearLines: scan rows from the bottom up to row 1, shifting out each full
     * row and examining the same row again, then score the lock.
     */
    method ClearLines()
      requires Ready() && !RowFull(RowsOf(board)[1])
      modifies board, this`score, this`lines
      ensures var c := ClearResult(old(RowsOf(board)));
        && RowsOf(board) == c.grid
        && score == old(score) + ScoreFor(c.count)
        && lines == old(lines) + c.count
      ensures Ready() && NoFullRows(RowsOf(board))
    {
      ghost var g0 := RowsOf(board);
      var linesCleared := 0;
      var y := Height - 1;
      while y > 0
        invariant 0 <= y < Height
        invariant score == old(score) && lines == old(lines)
        invariant !RowFull(RowsOf(board)[1])
        invariant ClearFrom(RowsOf(board), y, linesCleared) == ClearResult(g0)
        decreases FullRows(RowsOf(board)[1..y + 1]), y
      {
        ghost var g := RowsOf(board);
        var clearLine := IsRowFull(y);
        if clearLine {
          linesCleared := linesCleared + 1;
          ShiftDownRemovesOne(g, y);
          ShiftRowsDown(y);
          // row y is examined again
        } else {
          CompactedAfterSkip(g, y);
          y := y - 1;
        }
      }
      if linesCleared == 1 { score := score + 1; }
      if linesCleared == 2 { score := score + 3; }
      if linesCleared == 3 { score := score + 6; }
      if linesCleared == 4 { score := score + 12; }
      lines := lines + linesCleared;
      ClearLinesOutcome(g0);
    }

    /** The write loop of placePiece: every occupied cell of the piece goes to the board. */
    method WritePiece()
      requires Shaped() && IsFrame(piece.blocks) && InBoard(piece)
      modifies board
      ensures RowsOf(board) == Placed(old(RowsOf(board)), piece)
    {
      ghost var g := RowsOf(board);
      for x := 0 to 4
        invariant forall tx, ty :: 0 <= tx < Width && 0 <= ty < Height ==>
          board[tx, ty] == if Covers(piece, tx, ty) && tx - piece.x < x then piece.blocks[tx - piece.x][ty - piece.y] else g[ty][tx]
      {
        for y := 0 to 4
          invariant forall tx, ty :: 0 <= tx < Width && 0 <= ty < Height ==>
            board[tx, ty] ==
              if Covers(piece, tx, ty) && (tx - piece.x < x || (tx - piece.x == x && ty - piece.y < y))
              then piece.blocks[tx - piece.x][ty - piece.y] else g[ty][tx]
        {
          if piece.blocks[x][y] != 0 {
            var tx := piece.x + x;
            var ty := piece.y + y;
            board[tx, ty] := piece.blocks[x][y];
          }
        }
      }
      SameGrid(RowsOf(board), Placed(g, piece));
    }

    /**
     * placePiece: write every occupied cell of the active piece into the board,
     * then clear lines. When the lock fills row 1, clearLines would never
     * return; that outcome is reported as hung and nothing further happens.
     */
    method PlacePiece() returns (hung: bool)
      requires Playing()
      modifies board, this`score, this`lines
      ensures var placed := Placed(old(RowsOf(board)), piece);
        && hung == RowFull(placed[1])
        && (hung ==> RowsOf(board) == placed && score == old(score) && lines == old(lines))
        && (!hung ==>
              && RowsOf(board) == ClearResult(placed).grid
              && score == old(score) + ScoreFor(ClearResult(placed).count)
              && lines == old(lines) + ClearResult(placed).count
              && ClearResult(placed).count <= 4)
      ensures !hung ==> Playing()
    {
      ghost var g := RowsOf(board);
      WritePiece();
      ghost var placed := Placed(g, piece);
      assert ColoursOk(placed);
      hung := IsRowFull(1);
      if !hung {
        LockFillsAtMostFourRows(g, piece);
        ClearLinesCompacts(placed);
        ClearLines();
      }
    }

    /**
     * The collision branch of the drop step: lock the active piece, then spawn
     * the next one unless the lock left clearLines unable to return.
     */
    method LockAndSpawn(shape: int, colour: int) returns (hung: bool)
      requires Playing() && 1 <= shape <= 7 && 1 <= colour <= MaxColour
      modifies board, this`piece, this`score, this`lines
      ensures var placed := Placed(old(RowsOf(board)), old(piece));
        && hung == RowFull(placed[1])
        && (hung ==> RowsOf(board) == placed && piece == old(piece) && score == old(score) && lines == old(lines))
        && (!hung ==>
              && RowsOf(board) == ClearResult(placed).grid
              && score == old(score) + ScoreFor(ClearResult(placed).count)
              && lines == old(lines) + ClearResult(placed).count
              && piece == Spawned(shape, colour))
      ensures !hung ==> Playing()
    {
      hung := PlacePiece();
      if !hung {
        GeneratePiece(shape, colour);
      }
    }

    /**
     * The drop step of sceneBoard: the scratch piece is the active one a row
     * lower; if it collides the active piece is locked, lines are cleared and a
     * new piece spawns, otherwise it replaces the active piece.
     */
    method Drop(shape: int, colour: int) returns (hung: bool)
      requires Playing() && 1 <= shape <= 7 && 1 <= colour <= MaxColour
      modifies board, this`piece, this`swapPiece, this`score, this`lines
      ensures swapPiece == old(piece).(y := old(piece).y + 1)
      ensures !Collides(old(RowsOf(board)), swapPiece) ==>
        && !hung && piece == swapPiece
        && RowsOf(board) == old(RowsOf(board)) && score == old(score) && lines == old(lines)
      ensures Collides(old(RowsOf(board)), swapPiece) ==>
        var placed := Placed(old(RowsOf(board)), old(piece));
        && hung == RowFull(placed[1])
        && (hung ==> RowsOf(board) == placed && piece == old(piece) && score == old(score) && lines == old(lines))
        && (!hung ==>
              && RowsOf(board) == ClearResult(placed).grid
              && score == old(score) + ScoreFor(ClearResult(placed).count)
              && lines == old(lines) + ClearResult(placed).count
              && piece == Spawned(shape, colour))
      ensures !hung ==> Playing()
    {
      ghost var g := RowsOf(board);
      swapPiece := piece;
      swapPiece := swapPiece.(y := swapPiece.y + 1);
      var hit := DetectSwapPieceCollision();
      if hit {
        assert RowsOf(board) == g;
        hung := LockAndSpawn(shape, colour);
      } else {
        CollidesIffNoFit(RowsOf(board), swapPiece);
        piece := swapPiece;
        hung := false;
      }
    }

    /** The first loop of addLine: every row takes the row below it; the bottom row stays. */
    method RaiseRows()
      requires Shaped()
      modifies board
      ensures RowsOf(board) == old(RowsOf(board))[1..] + [old(RowsOf(board))[Height - 1]]
    {
      ghost var g := RowsOf(board);
      for y := 1 to Height
        invariant forall tx, ty :: 0 <= tx < Width && 0 <= ty < Height ==>
          board[tx, ty] == if ty < y - 1 then g[ty + 1][tx] else g[ty][tx]
      {
        for x := 0 to Width
          invariant forall tx, ty :: 0 <= tx < Width && 0 <= ty < Height ==>
            board[tx, ty] == if ty < y - 1 || (ty == y - 1 && tx < x) then g[ty + 1][tx] else g[ty][tx]
        {
          board[x, y - 1] := board[x, y];
        }
      }
      SameGrid(RowsOf(board), g[1..] + [g[Height - 1]]);
    }

    /** The second loop of addLine: the bottom row gets the drawn colours and one gap. */
    method FillBottomRow(xSkip: int, colours: seq<int>)
      requires Shaped() && 0 <= xSkip < Width && |colours| == Width
      requires forall x :: 0 <= x < Width ==> 1 <= colours[x] <= MaxColour
      modifies board
      ensures RowsOf(board) == old(RowsOf(board))[..Height - 1] + [SeedRow(xSkip, colours)]
    {
      ghost var g := RowsOf(board);
      var y := Height - 1;
      for x := 0 to Width
        invariant forall tx, ty :: 0 <= tx < Width && 0 <= ty < Height ==>
          board[tx, ty] == if ty == Height - 1 && tx < x then SeedRow(xSkip, colours)[tx] else g[ty][tx]
      {
        if x != xSkip {
          board[x, y] := colours[x];
        } else {
          board[x, y] := 0;
        }
      }
      SameGrid(RowsOf(board), g[..Height - 1] + [SeedRow(xSkip, colours)]);
    }

    /**
     * addLine: move every row up one, dropping row 0, and fill the bottom row
     * with the drawn colours except for the gap at xSkip.
     */
    method AddLine(xSkip: int, colours: seq<int>)
      requires Ready() && 0 <= xSkip < Width && |colours| == Width
      requires forall x :: 0 <= x < Width ==> 1 <= colours[x] <= MaxColour
      modifies board
      ensures Ready()
      ensures RowsOf(board) == old(RowsOf(board))[1..] + [SeedRow(xSkip, colours)]
    {
      ghost var g := RowsOf(board);
      RaiseRows();
      FillBottomRow(xSkip, colours);
      assert (g[1..] + [g[Height - 1]])[..Height - 1] == g[1..];
    }

    /** The memset of clearBoard: every board cell becomes 0. */
    method EmptyBoard()
      requires Shaped()
      modifies board
      ensures RowsOf(board) == Repeat(EmptyRow(), Height)
    {
      forall x, y | 0 <= x < Width && 0 <= y < Height {
        board[x, y] := 0;
      }
      SameGrid(RowsOf(board), Repeat(EmptyRow(), Height));
    }

    /** clearBoard: empty the board, then seed five rows with addLine. */
    method ClearBoard(gaps: seq<int>, colours: seq<seq<int>>)
      requires Ready() && ValidDraws(gaps, colours) && |gaps| == 5
      modifies board
      ensures Ready() && NoFullRows(RowsOf(board))
      ensures RowsOf(board) == Repeat(EmptyRow(), Height - 5) + SeedRows(gaps, colours)
    {
      EmptyBoard();
      assert gaps[..0] == [] && colours[..0] == [];
      for i := 0 to 5
        invariant Ready()
        invariant RowsOf(board) == Repeat(EmptyRow(), Height - i) + SeedRows(gaps[..i], colours[..i])
      {
        SeedStep(gaps, colours, i);
        AddLine(gaps[i], colours[i]);
      }
      assert gaps[..5] == gaps && colours[..5] == colours;
      SeededBoard(gaps, colours);
    }

    /**
     * startGame: seed the board and spawn the first piece. The score and line
     * counters are left as they are.
     */
    method StartGame(gaps: seq<int>, colours: seq<seq<int>>, shape: int, colour: int)
      requires Ready() && ValidDraws(gaps, colours) && |gaps| == 5
      requires 1 <= shape <= 7 && 1 <= colour <= MaxColour
      modifies board, this`piece
      ensures Playing()
      ensures RowsOf(board) == Repeat(EmptyRow(), Height - 5) + SeedRows(gaps, colours)
      ensures piece == Spawned(shape, colour)
      ensures score == old(score) && lines == old(lines)
    {
      ClearBoard(gaps, colours);
      GeneratePiece(shape, colour);
    }

    /**
     * The key half of one sceneBoard frame: rotate, move left, move right, each
     * only when its key was pressed. The board is left alone.
     */
    method HandleKeys(rotateKey: bool, leftKey: bool, rightKey: bool)
      requires Playing()
      modifies this`piece, this`swapPiece
      ensures Playing()
      ensures piece == KeyStep(RowsOf(board), old(piece), rotateKey, leftKey, rightKey)
    {
      if rotateKey {
        RotatePiece();
      }
      if leftKey {
        MoveSideways(-1);
      }
      if rightKey {
        MoveSideways(1);
      }
    }

    /**
     * The game logic of one sceneBoard frame: rotate, move left, move right,
     * then the drop step when the tick fired or the down key was pressed.
     */
    method PlayFrame(rotateKey: bool, leftKey: bool, rightKey: bool, tick: bool, downKey: bool,
                     shape: int, colour: int) returns (hung: bool)
      requires Playing() && 1 <= shape <= 7 && 1 <= colour <= MaxColour
      modifies board, this`piece, this`swapPiece, this`score, this`lines
      ensures !hung ==> Playing()
      ensures score >= old(score) && lines >= old(lines)
      ensures !(tick || downKey) ==> !hung && unchanged(board) && score == old(score) && lines == old(lines)
      ensures var keyed := KeyStep(old(RowsOf(board)), old(piece), rotateKey, leftKey, rightKey);
        var lower := keyed.(y := keyed.y + 1);
        && (!(tick || downKey) ==> piece == keyed)
        && ((tick || downKey) && !Collides(old(RowsOf(board)), lower) ==>
              !hung && piece == lower && RowsOf(board) == old(RowsOf(board))
              && score == old(score) && lines == old(lines))
        && ((tick || downKey) && Collides(old(RowsOf(board)), lower) ==>
              var placed := Placed(old(RowsOf(board)), keyed);
              && hung == RowFull(placed[1])
              && (hung ==> RowsOf(board) == placed && piece == keyed && score == old(score) && lines == old(lines))
              && (!hung ==>
                    && RowsOf(board) == ClearResult(placed).grid
                    && score == old(score) + ScoreFor(ClearResult(placed).count)
                    && lines == old(lines) + ClearResult(placed).count
                    && piece == Spawned(shape, colour)))
    {
      ghost var g := RowsOf(board);
      HandleKeys(rotateKey, leftKey, rightKey);
      assert RowsOf(board) == g;
      ghost var keyed := piece;
      assert keyed == KeyStep(g, old(piece), rotateKey, leftKey, rightKey);
      hung := false;
      if tick || downKey {
        hung := Drop(shape, colour);
      }
    }
  }
}
