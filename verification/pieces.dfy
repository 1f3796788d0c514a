/**
 * The falling piece of QuadBlox: a 4x4 frame of colour indices, indexed
 * blocks[x][y] (column x, row y) as in quadblox.c, and the board position of
 * the frame's top-left cell.
 */
module Pieces {
  import opened Grid

  const SpawnColumn: int := 5

  /** A 4x4 frame, f[x][y] with 0 for an empty cell. */
  type Frame = seq<seq<int>>

  predicate IsFrame(f: Frame) {
    |f| == 4 && forall x :: 0 <= x < 4 ==> |f[x]| == 4
  }

  /** The C struct GamePiece: the frame and its anchor on the board. */
  datatype Piece = Piece(blocks: Frame, x: int, y: int)

  function EmptyFrame(): Frame {
    seq(4, _ => [0, 0, 0, 0])
  }

  function SetCell(f: Frame, x: int, y: int, v: int): (g: Frame)
    requires IsFrame(f) && 0 <= x < 4 && 0 <= y < 4
    ensures IsFrame(g)
  {
    f[x := f[x][y := v]]
  }

  lemma SameFrame(f: Frame, g: Frame)
    requires IsFrame(f) && IsFrame(g)
    requires forall x, y :: 0 <= x < 4 && 0 <= y < 4 ==> f[x][y] == g[x][y]
    ensures f == g
  {
    forall x | 0 <= x < 4
      ensures f[x] == g[x]
    {
      assert forall y :: 0 <= y < 4 ==> f[x][y] == g[x][y];
    }
  }

  /** Column x holds no tile (the test of the left-shift loop). */
  predicate ColumnEmpty(f: Frame, x: int)
    requires IsFrame(f) && 0 <= x < 4
  {
    f[x][0] == 0 && f[x][1] == 0 && f[x][2] == 0 && f[x][3] == 0
  }

  /** Row y holds no tile (the test of the up-shift loop). */
  predicate RowEmpty(f: Frame, y: int)
    requires IsFrame(f) && 0 <= y < 4
  {
    f[0][y] == 0 && f[1][y] == 0 && f[2][y] == 0 && f[3][y] == 0
  }

  /** 1 for an occupied cell, 0 for an empty one. */
  function Bit(v: int): nat {
    if v != 0 then 1 else 0
  }

  function ColumnCount(c: seq<int>): nat
    requires |c| == 4
  {
    Bit(c[0]) + Bit(c[1]) + Bit(c[2]) + Bit(c[3])
  }

  /** The number of occupied cells of a frame. */
  function OccupiedCount(f: Frame): nat
    requires IsFrame(f)
  {
    ColumnCount(f[0]) + ColumnCount(f[1]) + ColumnCount(f[2]) + ColumnCount(f[3])
  }

  // ---------------------------------------------------------------------------
  // Normalisation (quadblox.c positionPiece)

  /** The frame moved dx columns left and dy rows up, filling with empty cells. */
  function Translate(f: Frame, dx: nat, dy: nat): (t: Frame)
    requires IsFrame(f)
    ensures IsFrame(t)
  {
    seq(4, i requires 0 <= i < 4 =>
      seq(4, j requires 0 <= j < 4 =>
        if i + dx < 4 && j + dy < 4 then f[i + dx][j + dy] else 0))
  }

  /** Two translations make one. */
  lemma TranslateTwice(f: Frame, dx: nat, dy: nat, ex: nat, ey: nat)
    requires IsFrame(f)
    ensures Translate(Translate(f, dx, dy), ex, ey) == Translate(f, dx + ex, dy + ey)
  {
    SameFrame(Translate(Translate(f, dx, dy), ex, ey), Translate(f, dx + ex, dy + ey));
  }

  /** The leftmost column holding a tile. */
  function FirstColumn(f: Frame): (c: nat)
    requires IsFrame(f) && OccupiedCount(f) > 0
    ensures c < 4 && !ColumnEmpty(f, c)
    ensures forall x :: 0 <= x < c ==> ColumnEmpty(f, x)
    ensures forall x, y :: 0 <= x < c && 0 <= y < 4 ==> f[x][y] == 0
  {
    if !ColumnEmpty(f, 0) then 0
    else if !ColumnEmpty(f, 1) then 1
    else if !ColumnEmpty(f, 2) then 2
    else 3
  }

  /** The topmost row holding a tile. */
  function FirstRow(f: Frame): (r: nat)
    requires IsFrame(f) && OccupiedCount(f) > 0
    ensures r < 4 && !RowEmpty(f, r)
    ensures forall y :: 0 <= y < r ==> RowEmpty(f, y)
    ensures forall x, y :: 0 <= x < 4 && 0 <= y < r ==> f[x][y] == 0
  {
    if !RowEmpty(f, 0) then 0
    else if !RowEmpty(f, 1) then 1
    else if !RowEmpty(f, 2) then 2
    else 3
  }

  /**
   * Reference definition of positionPiece: the frame translated so that its
   * leftmost occupied column and its topmost occupied row come first.
   */
  function Normalized(f: Frame): (n: Frame)
    requires IsFrame(f) && OccupiedCount(f) > 0
    ensures IsFrame(n)
  {
    Translate(f, FirstColumn(f), FirstRow(f))
  }

  /** Column 0 of a left-translated frame is column k of the original. */
  lemma ColumnZeroAfterLeft(f: Frame, k: nat)
    requires IsFrame(f) && k < 4
    ensures ColumnEmpty(Translate(f, k, 0), 0) <==> ColumnEmpty(f, k)
  {
  }

  /** The left-shift loop of positionPiece runs exactly FirstColumn(f) times. */
  lemma LeftShiftGuard(f: Frame, k: nat)
    requires IsFrame(f) && OccupiedCount(f) > 0 && k <= FirstColumn(f)
    ensures ColumnEmpty(Translate(f, k, 0), 0) <==> k < FirstColumn(f)
  {
    ColumnZeroAfterLeft(f, k);
  }

  /**
   * Once the empty columns are gone, row 0 of the frame moved up m rows is
   * empty exactly when row m of the original is.
   */
  lemma RowZeroAfterUp(f: Frame, m: nat)
    requires IsFrame(f) && OccupiedCount(f) > 0 && m < 4
    ensures RowEmpty(Translate(f, FirstColumn(f), m), 0) <==> RowEmpty(f, m)
  {
    var dx := FirstColumn(f);
    var t := Translate(f, dx, m);
    assert forall x :: dx <= x < 4 ==> t[x - dx][0] == f[x][m];
    assert forall x :: 4 - dx <= x < 4 ==> t[x][0] == 0;
  }

  /** The up-shift loop of positionPiece runs exactly FirstRow(f) times. */
  lemma UpShiftGuard(f: Frame, m: nat)
    requires IsFrame(f) && OccupiedCount(f) > 0 && m <= FirstRow(f)
    ensures RowEmpty(Translate(f, FirstColumn(f), m), 0) <==> m < FirstRow(f)
  {
    RowZeroAfterUp(f, m);
  }

  /**
   * Normalisation only translates: every occupied cell of the original moves
   * dx columns left and dy rows up with its colour, and every cell of the
   * result is a cell of the original.
   */
  lemma NormalizedTranslates(f: Frame)
    requires IsFrame(f) && OccupiedCount(f) > 0
    ensures var n, dx, dy := Normalized(f), FirstColumn(f), FirstRow(f);
      && (forall x, y :: 0 <= x < 4 && 0 <= y < 4 && f[x][y] != 0 ==>
            dx <= x && dy <= y && n[x - dx][y - dy] == f[x][y])
      && (forall x, y :: 0 <= x < 4 && 0 <= y < 4 && n[x][y] != 0 ==>
            x + dx < 4 && y + dy < 4 && n[x][y] == f[x + dx][y + dy])
  {
  }

  /** Normalisation keeps every cell a colour index in 0..MaxColour. */
  lemma NormalizedColours(f: Frame)
    requires IsFrame(f) && OccupiedCount(f) > 0 && ColoursOk(f)
    ensures ColoursOk(Normalized(f))
  {
  }

  /** The occupied cells keep their number when normalised. */
  lemma NormalizedCount(f: Frame)
    requires IsFrame(f) && OccupiedCount(f) > 0
    ensures OccupiedCount(Normalized(f)) == OccupiedCount(f)
  {
    var dx, dy := FirstColumn(f), FirstRow(f);
    var h := Translate(f, dx, 0);
    TranslateTwice(f, dx, 0, 0, dy);
    LeftCount(f, dx);
    assert OccupiedCount(h) > 0;
    assert forall y :: 0 <= y < dy ==> RowEmpty(h, y) by {
      forall y | 0 <= y < dy ensures RowEmpty(h, y) {
        assert RowEmpty(f, y);
      }
    }
    UpCount(h, dy);
  }

  /** Dropping empty leading columns keeps the count. */
  lemma LeftCount(f: Frame, k: nat)
    requires IsFrame(f) && k < 4
    requires forall x :: 0 <= x < k ==> ColumnEmpty(f, x)
    ensures OccupiedCount(Translate(f, k, 0)) == OccupiedCount(f)
  {
    var t := Translate(f, k, 0);
    assert forall x :: 0 <= x < 4 - k ==> t[x] == f[x + k];
    assert forall x :: 4 - k <= x < 4 ==> t[x] == [0, 0, 0, 0];
    if k == 1 { assert ColumnEmpty(f, 0); }
    else if k == 2 { assert ColumnEmpty(f, 0) && ColumnEmpty(f, 1); }
    else if k == 3 { assert ColumnEmpty(f, 0) && ColumnEmpty(f, 1) && ColumnEmpty(f, 2); }
  }

  /** Dropping empty leading rows keeps the count. */
  lemma UpCount(f: Frame, k: nat)
    requires IsFrame(f) && k < 4
    requires forall y :: 0 <= y < k ==> RowEmpty(f, y)
    ensures OccupiedCount(Translate(f, 0, k)) == OccupiedCount(f)
  {
    var t := Translate(f, 0, k);
    forall x | 0 <= x < 4
      ensures ColumnCount(t[x]) == ColumnCount(f[x])
    {
      if k >= 1 { assert RowEmpty(f, 0); }
      if k >= 2 { assert RowEmpty(f, 1); }
      if k >= 3 { assert RowEmpty(f, 2); }
    }
  }

  /** A normalised frame has a tile in column 0 and a tile in row 0. */
  lemma NormalizedTouchesCorner(f: Frame)
    requires IsFrame(f) && OccupiedCount(f) > 0
    ensures !ColumnEmpty(Normalized(f), 0) && !RowEmpty(Normalized(f), 0)
  {
    var n, dx, dy := Normalized(f), FirstColumn(f), FirstRow(f);
    NormalizedTranslates(f);
    assert !ColumnEmpty(f, dx);
    var j :| 0 <= j < 4 && f[dx][j] != 0;
    assert n[0][j - dy] != 0;
    var i :| 0 <= i < 4 && f[i][dy] != 0;
    assert n[i - dx][0] != 0;
  }

  /** positionPiece run a second time changes nothing. */
  lemma NormalizedIdempotent(f: Frame)
    requires IsFrame(f) && OccupiedCount(f) > 0
    ensures OccupiedCount(Normalized(f)) > 0
    ensures Normalized(Normalized(f)) == Normalized(f)
  {
    var n := Normalized(f);
    NormalizedCount(f);
    NormalizedTouchesCorner(f);
    assert FirstColumn(n) == 0 && FirstRow(n) == 0;
    SameFrame(Translate(n, 0, 0), n);
  }

  // ---------------------------------------------------------------------------
  // Rotation (quadblox.c rotatePiece)

  /** The 90-degree turn of rotatePiece: new[3 - x][y] = old[y][x]. */
  function Rotated(f: Frame): (r: Frame)
    requires IsFrame(f)
    ensures IsFrame(r)
  {
    seq(4, i requires 0 <= i < 4 => seq(4, j requires 0 <= j < 4 => f[j][3 - i]))
  }

  /** The number of occupied cells in row y. */
  function RowCount(f: Frame, y: int): nat
    requires IsFrame(f) && 0 <= y < 4
  {
    Bit(f[0][y]) + Bit(f[1][y]) + Bit(f[2][y]) + Bit(f[3][y])
  }

  /** Counting by rows gives the same total as counting by columns. */
  lemma CountByRows(f: Frame)
    requires IsFrame(f)
    ensures OccupiedCount(f) == RowCount(f, 0) + RowCount(f, 1) + RowCount(f, 2) + RowCount(f, 3)
  {
  }

  /** Rotation moves each cell as rotatePiece's loop does and keeps the count. */
  lemma RotatedMovesCells(f: Frame)
    requires IsFrame(f)
    ensures forall x, y :: 0 <= x < 4 && 0 <= y < 4 ==> Rotated(f)[3 - x][y] == f[y][x]
    ensures OccupiedCount(Rotated(f)) == OccupiedCount(f)
    ensures ColoursOk(f) ==> ColoursOk(Rotated(f))
  {
    var r := Rotated(f);
    forall i | 0 <= i < 4
      ensures ColumnCount(r[i]) == RowCount(f, 3 - i)
    {
      assert r[i] == [f[0][3 - i], f[1][3 - i], f[2][3 - i], f[3][3 - i]];
    }
    CountByRows(f);
  }

  /** Four turns give back the frame, so one turn is a bijection of the cells. */
  lemma RotatedFourTimes(f: Frame)
    requires IsFrame(f)
    ensures Rotated(Rotated(Rotated(Rotated(f)))) == f
  {
    SameFrame(Rotated(Rotated(Rotated(Rotated(f)))), f);
  }

  /**
   * What rotatePiece proposes, the turned frame normalised, keeps the tile
   * count and the colours of the frame it came from.
   */
  lemma TurnedKeepsTiles(f: Frame)
    requires IsFrame(f) && OccupiedCount(f) > 0
    ensures OccupiedCount(Rotated(f)) > 0
    ensures OccupiedCount(Normalized(Rotated(f))) == OccupiedCount(f)
    ensures ColoursOk(f) ==> ColoursOk(Normalized(Rotated(f)))
  {
    RotatedMovesCells(f);
    NormalizedCount(Rotated(f));
    if ColoursOk(f) {
      NormalizedColours(Rotated(f));
    }
  }

  // ---------------------------------------------------------------------------
  // Spawning (quadblox.c generatePiece)

  /**
   * The frame of each of the seven shapes before normalisation, all cells in
   * one colour k; each inner sequence is one column x, listing rows 0..3.
   */
  function ShapeFrame(shape: int, k: int): (f: Frame)
    requires 1 <= shape <= 7
    ensures IsFrame(f)
  {
    match shape
    case 1 => [[0, 0, 0, 0], [k, k, k, k], [0, 0, 0, 0], [0, 0, 0, 0]]  // straight line
    case 2 => [[0, 0, 0, 0], [0, k, k, 0], [0, k, k, 0], [0, 0, 0, 0]]  // square
    case 3 => [[0, 0, 0, 0], [0, k, 0, 0], [0, k, k, 0], [0, k, 0, 0]]  // T
    case 4 => [[0, 0, 0, 0], [0, k, 0, 0], [k, k, 0, 0], [k, 0, 0, 0]]  // S
    case 5 => [[0, 0, 0, 0], [k, 0, 0, 0], [k, k, 0, 0], [0, k, 0, 0]]  // backwards S
    case 6 => [[0, 0, 0, 0], [0, k, k, k], [0, 0, 0, k], [0, 0, 0, 0]]  // L
    case 7 => [[0, 0, 0, 0], [0, k, k, k], [0, k, 0, 0], [0, 0, 0, 0]]  // backwards L
  }

  /** A freshly spawned piece, as generatePiece leaves it. */
  function Spawned(shape: int, colour: int): Piece
    requires 1 <= shape <= 7 && 1 <= colour <= MaxColour
  {
    var f := ShapeFrame(shape, colour);
    assert OccupiedCount(f) == 4 by { ShapeFrameFacts(shape, colour); }
    Piece(Normalized(f), SpawnColumn, 0)
  }

  lemma ShapeFrameFacts(shape: int, colour: int)
    requires 1 <= shape <= 7 && 1 <= colour <= MaxColour
    ensures var f := ShapeFrame(shape, colour);
      && OccupiedCount(f) == 4 && ColumnEmpty(f, 0)
      && forall x, y :: 0 <= x < 4 && 0 <= y < 4 ==> f[x][y] == 0 || f[x][y] == colour
  {
    var f := ShapeFrame(shape, colour);
    var k := colour;
    assert Bit(k) == 1;
    assert Bit(0) == 0;
  }

  /**
   * Every spawned piece has four cells of its colour, touches the top-left of
   * its frame, and lies in frame columns 0..2, so on the board in columns
   * SpawnColumn..SpawnColumn+2 and rows 0..3.
   */
  lemma SpawnedFacts(shape: int, colour: int)
    requires 1 <= shape <= 7 && 1 <= colour <= MaxColour
    ensures var p := Spawned(shape, colour);
      && IsFrame(p.blocks) && p.x == SpawnColumn && p.y == 0
      && OccupiedCount(p.blocks) == 4
      && (forall x, y :: 0 <= x < 4 && 0 <= y < 4 ==> p.blocks[x][y] == 0 || p.blocks[x][y] == colour)
      && (forall x, y :: 0 <= x < 4 && 0 <= y < 4 && p.blocks[x][y] != 0 ==> x <= 2)
      && !ColumnEmpty(p.blocks, 0) && !RowEmpty(p.blocks, 0)
  {
    var f := ShapeFrame(shape, colour);
    ShapeFrameFacts(shape, colour);
    NormalizedCount(f);
    NormalizedTouchesCorner(f);
    NormalizedTranslates(f);
    assert FirstColumn(f) >= 1;
  }
}
