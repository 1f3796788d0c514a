/**
 * The QuadBlox playfield as a value: a sequence of Height rows of Width colour
 * indices, where 0 is an empty cell and 1..8 index the palette.
 *
 * The game keeps the board as an array indexed board[x][y]; here g[y][x] is the
 * same cell, so that line clearing can be stated row by row.
 */
module Grid {
  const Width: int := 10
  const Height: int := 28
  const MaxColour: int := 8

  /** One board row, indexed by column. */
  type Row = seq<int>

  /** The board, indexed by row: g[y] is row y, row 0 at the top. */
  type Grid = seq<Row>

  predicate IsGrid(g: Grid) {
    |g| == Height && forall y :: 0 <= y < Height ==> |g[y]| == Width
  }

  /** A row whose every column holds a tile. */
  predicate RowFull(r: Row) {
    forall x :: 0 <= x < |r| ==> r[x] != 0
  }

  /** Rows 1..Height-1 (the rows line clearing examines) hold no full row. */
  predicate NoFullRows(g: Grid)
    requires IsGrid(g)
  {
    forall y :: 1 <= y < Height ==> !RowFull(g[y])
  }

  /** Every cell of a board or of a piece frame holds a colour index in 0..MaxColour. */
  predicate ColoursOk(g: Grid) {
    forall y, x :: 0 <= y < |g| && 0 <= x < |g[y]| ==> 0 <= g[y][x] <= MaxColour
  }

  function EmptyRow(): Row {
    seq(Width, _ => 0)
  }

  function Repeat(r: Row, n: nat): seq<Row> {
    seq(n, _ => r)
  }

  lemma SameGrid(g: Grid, h: Grid)
    requires IsGrid(g) && IsGrid(h)
    requires forall y, x :: 0 <= y < Height && 0 <= x < Width ==> g[y][x] == h[y][x]
    ensures g == h
  {
    forall y | 0 <= y < Height
      ensures g[y] == h[y]
    {
      assert forall x :: 0 <= x < Width ==> g[y][x] == h[y][x];
    }
  }

  // ---------------------------------------------------------------------------
  // Counting and dropping full rows

  /** The number of full rows in s. */
  function FullRows(s: seq<Row>): nat {
    if s == [] then 0
    else FullRows(s[..|s| - 1]) + (if RowFull(s[|s| - 1]) then 1 else 0)
  }

  /** The rows of s that are not full, in their original order. */
  function Kept(s: seq<Row>): seq<Row> {
    if s == [] then []
    else Kept(s[..|s| - 1]) + (if RowFull(s[|s| - 1]) then [] else [s[|s| - 1]])
  }

  /** Dropping the full rows keeps exactly the others, each an original row. */
  lemma {:induction false} KeptFacts(s: seq<Row>)
    ensures |Kept(s)| + FullRows(s) == |s|
    ensures forall i :: 0 <= i < |Kept(s)| ==> Kept(s)[i] in s && !RowFull(Kept(s)[i])
  {
    if s != [] {
      var t := s[..|s| - 1];
      KeptFacts(t);
      assert forall r :: r in t ==> r in s;
    }
  }

  /** A sequence without full rows is kept whole. */
  lemma {:induction false} KeptNoneFull(s: seq<Row>)
    requires forall i :: 0 <= i < |s| ==> !RowFull(s[i])
    ensures Kept(s) == s && FullRows(s) == 0
  {
    if s != [] {
      KeptNoneFull(s[..|s| - 1]);
      assert s[..|s| - 1] + [s[|s| - 1]] == s;
    }
  }

  /** Counting and dropping read a row put in front like any other. */
  lemma {:induction false} PrependRow(r: Row, s: seq<Row>)
    ensures FullRows([r] + s) == (if RowFull(r) then 1 else 0) + FullRows(s)
    ensures Kept([r] + s) == (if RowFull(r) then [] else [r]) + Kept(s)
  {
    if s == [] {
      assert [r] + s == [r];
      assert [r][..0] == [];
    } else {
      var t := s[..|s| - 1];
      assert ([r] + s)[..|s|] == [r] + t;
      PrependRow(r, t);
    }
  }

  /** The last row is counted and kept (or not) by its own fullness. */
  lemma AppendRow(s: seq<Row>, r: Row)
    ensures FullRows(s + [r]) == FullRows(s) + (if RowFull(r) then 1 else 0)
    ensures Kept(s + [r]) == Kept(s) + (if RowFull(r) then [] else [r])
  {
    assert (s + [r])[..|s|] == s;
  }

  /**
   * At most four full rows when every full row lies in the window lo..lo+3.
   */
  lemma {:induction false} FullRowsInWindow(s: seq<Row>, lo: int)
    requires forall i :: 0 <= i < |s| && RowFull(s[i]) ==> lo <= i < lo + 4
    ensures FullRows(s) <= 4
    ensures FullRows(s) <= (if |s| <= lo then 0 else if |s| >= lo + 4 then 4 else |s| - lo)
  {
    if s != [] {
      var t := s[..|s| - 1];
      assert forall i :: 0 <= i < |t| ==> t[i] == s[i];
      FullRowsInWindow(t, lo);
    }
  }

  // ---------------------------------------------------------------------------
  // Line clearing (quadblox.c clearLines)

  /**
   * The shift that clears row y: rows 2..y take the old rows 1..y-1, so row 1
   * is duplicated rather than emptied; rows 0 and 1 and the rows below y stay.
   */
  function ShiftDown(g: Grid, y: int): (h: Grid)
    requires IsGrid(g) && 1 <= y < Height
    ensures IsGrid(h)
    ensures h == g[..2] + g[1..y] + g[y + 1..]
  {
    var h := seq(Height, r requires 0 <= r < Height => if 2 <= r <= y then g[r - 1] else g[r]);
    assert h == g[..2] + g[1..y] + g[y + 1..];
    h
  }

  /** Shifting out a full row y removes one full row from rows 1..y. */
  lemma ShiftDownRemovesOne(g: Grid, y: int)
    requires IsGrid(g) && 1 <= y < Height
    requires RowFull(g[y]) && !RowFull(g[1])
    ensures ShiftDown(g, y)[1..y + 1] == [g[1]] + g[1..y]
    ensures FullRows(ShiftDown(g, y)[1..y + 1]) == FullRows(g[1..y + 1]) - 1
    ensures Kept(ShiftDown(g, y)[1..y + 1]) == [g[1]] + Kept(g[1..y])
    ensures FullRows(g[1..y + 1]) == FullRows(g[1..y]) + 1
    ensures Kept(g[1..y + 1]) == Kept(g[1..y])
  {
    var h := ShiftDown(g, y);
    assert h[1..y + 1] == [g[1]] + g[1..y];
    PrependRow(g[1], g[1..y]);
    assert g[1..y + 1] == g[1..y] + [g[y]];
    AppendRow(g[1..y], g[y]);
  }

  /** What clearLines computes: the final board and the number of rows cleared. */
  datatype Cleared = Cleared(grid: Grid, count: nat)

  /**
   * The clearLines loop from row y upwards to row 1, with n rows already
   * cleared: a full row y is shifted out and row y examined again; a row that
   * is not full moves the scan up one row. It terminates only while row 1 is
   * not full (row 1 is never shifted, so a full row 1 is examined forever).
   */
  function ClearFrom(g: Grid, y: nat, n: nat): (c: Cleared)
    requires IsGrid(g) && y < Height && !RowFull(g[1])
    ensures IsGrid(c.grid) && c.count >= n
    decreases FullRows(g[1..y + 1]), y
  {
    if y == 0 then Cleared(g, n)
    else if RowFull(g[y]) then
      ShiftDownRemovesOne(g, y);
      ClearFrom(ShiftDown(g, y), y, n + 1)
    else
      assert g[1..y + 1] == g[1..y] + [g[y]];
      AppendRow(g[1..y], g[y]);
      ClearFrom(g, y - 1, n)
  }

  /** One call of clearLines on the whole board. */
  function ClearResult(g: Grid): Cleared
    requires IsGrid(g) && !RowFull(g[1])
  {
    ClearFrom(g, Height - 1, 0)
  }

  /**
   * Reference definition of a partial scan: rows 1..y are replaced by as many
   * copies of row 1 as they hold full rows, followed by their non-full rows in
   * order; row 0 and the rows below y are untouched.
   */
  function Compacted(g: Grid, y: nat): Grid
    requires |g| == Height && 1 <= |g| && y < Height
  {
    g[..1] + Repeat(g[1], FullRows(g[1..y + 1])) + Kept(g[1..y + 1]) + g[y + 1..]
  }

  /** Shifting out a full row y leaves the compaction of rows 1..y unchanged. */
  lemma CompactedAfterShift(g: Grid, y: int)
    requires IsGrid(g) && 1 <= y < Height
    requires RowFull(g[y]) && !RowFull(g[1])
    ensures Compacted(ShiftDown(g, y), y) == Compacted(g, y)
  {
    var h := ShiftDown(g, y);
    var k := FullRows(g[1..y + 1]);
    ShiftDownRemovesOne(g, y);
    assert h[..1] == g[..1] && h[1] == g[1] && h[y + 1..] == g[y + 1..];
    assert Repeat(g[1], k - 1) + [g[1]] == Repeat(g[1], k);
    calc {
      Compacted(h, y);
      g[..1] + Repeat(g[1], k - 1) + ([g[1]] + Kept(g[1..y])) + g[y + 1..];
      g[..1] + (Repeat(g[1], k - 1) + [g[1]]) + Kept(g[1..y]) + g[y + 1..];
      Compacted(g, y);
    }
  }

  /** Passing over a row y that is not full extends the compaction by that row. */
  lemma CompactedAfterSkip(g: Grid, y: int)
    requires IsGrid(g) && 1 <= y < Height && !RowFull(g[y])
    ensures FullRows(g[1..y]) == FullRows(g[1..y + 1])
    ensures Compacted(g, y - 1) == Compacted(g, y)
  {
    assert g[1..y + 1] == g[1..y] + [g[y]];
    AppendRow(g[1..y], g[y]);
    assert g[y..] == [g[y]] + g[y + 1..];
    var head := g[..1] + Repeat(g[1], FullRows(g[1..y]));
    calc {
      Compacted(g, y - 1);
      head + Kept(g[1..y]) + ([g[y]] + g[y + 1..]);
      head + (Kept(g[1..y]) + [g[y]]) + g[y + 1..];
      Compacted(g, y);
    }
  }

  /** The scan from row y computes exactly the compaction of rows 1..y. */
  lemma {:induction false} ClearFromCompacts(g: Grid, y: nat, n: nat)
    requires IsGrid(g) && y < Height && !RowFull(g[1])
    ensures ClearFrom(g, y, n) == Cleared(Compacted(g, y), n + FullRows(g[1..y + 1]))
    decreases FullRows(g[1..y + 1]), y
  {
    if y == 0 {
      assert g[1..1] == [];
      assert g[..1] + g[1..] == g;
    } else if RowFull(g[y]) {
      ShiftDownRemovesOne(g, y);
      ClearFromCompacts(ShiftDown(g, y), y, n + 1);
      CompactedAfterShift(g, y);
    } else {
      CompactedAfterSkip(g, y);
      ClearFromCompacts(g, y - 1, n);
    }
  }

  /**
   * clearLines as a whole: the count is the number of full rows among rows
   * 1..Height-1, which are removed with the others kept in order and copies of
   * row 1 filling in beneath row 0.
   */
  lemma ClearLinesCompacts(g: Grid)
    requires IsGrid(g) && !RowFull(g[1])
    ensures ClearResult(g).count == FullRows(g[1..])
    ensures ClearResult(g).grid == [g[0]] + Repeat(g[1], FullRows(g[1..])) + Kept(g[1..])
  {
    ClearFromCompacts(g, Height - 1, 0);
    assert g[1..Height] == g[1..];
    assert g[Height..] == [];
    assert g[..1] == [g[0]];
  }

  /**
   * After clearLines no row from 1 down holds a full row, rows 0 and 1 are
   * unchanged, every row is one of the old rows, and a board without full rows
   * comes back unchanged with a count of 0.
   */
  lemma ClearLinesOutcome(g: Grid)
    requires IsGrid(g) && !RowFull(g[1])
    ensures var c := ClearResult(g);
      && NoFullRows(c.grid)
      && c.grid[0] == g[0] && c.grid[1] == g[1]
      && c.count < Height - 1
      && (forall y :: 0 <= y < Height ==> c.grid[y] in g)
      && (ColoursOk(g) ==> ColoursOk(c.grid))
      && (NoFullRows(g) ==> c == Cleared(g, 0))
  {
    var c := ClearResult(g);
    var s := g[1..];
    var k := FullRows(s);
    ClearLinesCompacts(g);
    KeptFacts(s);
    assert c.grid == [g[0]] + Repeat(g[1], k) + Kept(s);
    assert |s| == Height - 1 && s[0] == g[1];
    assert forall r :: r in s ==> r in g;
    forall y | 1 <= y < Height
      ensures !RowFull(c.grid[y]) && c.grid[y] in g
    {
      if y <= k {
        assert c.grid[y] == g[1];
      } else {
        assert c.grid[y] == Kept(s)[y - 1 - k];
      }
    }
    if k == 0 {
      assert Kept(s)[0] in s && !RowFull(Kept(s)[0]);
      assert c.grid[1] == Kept(s)[0];
      if Kept(s)[0] != g[1] {
        // the first kept row is the first non-full row of s, which is s[0]
        KeptHead(s);
      }
    }
    assert k < Height - 1 by {
      assert Kept(s) != [] by { KeptHead(s); }
    }
    forall y, x | 0 <= y < Height && 0 <= x < Width && ColoursOk(g)
      ensures 0 <= c.grid[y][x] <= MaxColour
    {
      var i :| 0 <= i < |g| && g[i] == c.grid[y];
    }
    if NoFullRows(g) {
      KeptNoneFull(s);
      assert c.grid == [g[0]] + s;
      assert [g[0]] + g[1..] == g;
    }
  }

  /** A sequence whose first row is not full keeps that row first. */
  lemma {:induction false} KeptHead(s: seq<Row>)
    requires s != [] && !RowFull(s[0])
    ensures Kept(s) != [] && Kept(s)[0] == s[0]
  {
    PrependRow(s[0], s[1..]);
    assert [s[0]] + s[1..] == s;
  }

  /** The state of the clearLines loop: the board, the row y and the rows cleared so far. */
  datatype Scan = Scan(grid: Grid, y: int, count: nat)

  /**
   * One pass of the clearLines loop body at row y >= 1: a full row is shifted
   * out and, through the y++ that cancels the loop's y--, examined again; any
   * other row moves the scan up one row.
   */
  function ScanStep(s: Scan): (t: Scan)
    requires IsGrid(s.grid) && 1 <= s.y < Height
    ensures IsGrid(t.grid) && 0 <= t.y < Height
  {
    if RowFull(s.grid[s.y]) then Scan(ShiftDown(s.grid, s.y), s.y, s.count + 1)
    else Scan(s.grid, s.y - 1, s.count)
  }

  /** At most k passes of the loop body; the loop exits once y reaches 0. */
  function ScanSteps(s: Scan, k: nat): (t: Scan)
    requires IsGrid(s.grid) && 0 <= s.y < Height
    ensures IsGrid(t.grid) && 0 <= t.y < Height
    decreases k
  {
    if k == 0 || s.y == 0 then s else ScanSteps(ScanStep(s), k - 1)
  }

  /** The row shift at row 1 writes nothing: rows 2..1 form an empty range. */
  lemma ShiftAtRowOneIsIdentity(g: Grid)
    requires IsGrid(g)
    ensures ShiftDown(g, 1) == g
  {
    assert g[..2] + g[1..1] + g[2..] == g;
  }

  /**
   * The clearLines loop never exits with row 1 full: from row 1, any number k
   * of passes leaves the board as it was, the scan still at row 1, and k more
   * rows counted as cleared.
   */
  lemma {:induction false} ClearStuckAtRowOne(g: Grid, n: nat, k: nat)
    requires IsGrid(g) && RowFull(g[1])
    ensures ScanSteps(Scan(g, 1, n), k) == Scan(g, 1, n + k)
    decreases k
  {
    if k > 0 {
      ShiftAtRowOneIsIdentity(g);
      assert ScanStep(Scan(g, 1, n)) == Scan(g, 1, n + 1);
      ClearStuckAtRowOne(g, n + 1, k - 1);
    }
  }

  /** A pass at a full row: ClearFrom shifts it out and stays at the row, one full row fewer. */
  lemma ShiftPass(g: Grid, y: nat, n: nat)
    requires IsGrid(g) && 1 <= y < Height && !RowFull(g[1]) && RowFull(g[y])
    ensures var h := ShiftDown(g, y);
      && !RowFull(h[1])
      && ClearFrom(g, y, n) == ClearFrom(h, y, n + 1)
      && FullRows(h[1..y + 1]) < FullRows(g[1..y + 1])
  {
    ShiftDownRemovesOne(g, y);
  }

  /** A pass at a row that is not full: ClearFrom moves up a row, with as many full rows left. */
  lemma SkipPass(g: Grid, y: nat, n: nat)
    requires IsGrid(g) && 1 <= y < Height && !RowFull(g[1]) && !RowFull(g[y])
    ensures ClearFrom(g, y, n) == ClearFrom(g, y - 1, n)
    ensures FullRows(g[1..y]) == FullRows(g[1..y + 1])
  {
    assert g[1..y + 1][..y - 1] == g[1..y];
  }

  /**
   * One pass of the loop body is one unfolding of ClearFrom, and it lowers
   * ClearFrom's termination measure.
   */
  lemma ClearFromUnfolds(g: Grid, y: nat, n: nat)
    requires IsGrid(g) && 1 <= y < Height && !RowFull(g[1])
    ensures var t := ScanStep(Scan(g, y, n));
      && !RowFull(t.grid[1])
      && ClearFrom(g, y, n) == ClearFrom(t.grid, t.y, t.count)
      && (FullRows(t.grid[1..t.y + 1]) < FullRows(g[1..y + 1])
          || (FullRows(t.grid[1..t.y + 1]) == FullRows(g[1..y + 1]) && t.y < y))
  {
    if RowFull(g[y]) {
      ShiftPass(g, y, n);
    } else {
      SkipPass(g, y, n);
    }
  }

  /**
   * The whole clearLines loop never exits with row 1 full, wherever the scan
   * starts: a shift never writes row 1, so row 1 stays full, and the scan
   * never passes row 1.
   */
  lemma {:induction false} ScanNeverExits(g: Grid, y: int, n: nat, k: nat)
    requires IsGrid(g) && 1 <= y < Height && RowFull(g[1])
    ensures var t := ScanSteps(Scan(g, y, n), k);
      t.y >= 1 && RowFull(t.grid[1])
    decreases k
  {
    if k > 0 {
      var t := ScanStep(Scan(g, y, n));
      if RowFull(g[y]) {
        assert ShiftDown(g, y)[1] == g[1];
      }
      ScanNeverExits(t.grid, t.y, t.count, k - 1);
    }
  }

  /**
   * While row 1 is not full, the terminating scan ClearFrom is the loop body
   * iterated: some number of passes from (g, y, n) reaches row 0 with
   * ClearFrom's board and count.
   */
  lemma {:induction false} ClearFromIsScan(g: Grid, y: nat, n: nat) returns (k: nat)
    requires IsGrid(g) && y < Height && !RowFull(g[1])
    ensures var c := ClearFrom(g, y, n);
      ScanSteps(Scan(g, y, n), k) == Scan(c.grid, 0, c.count)
    decreases FullRows(g[1..y + 1]), y
  {
    if y == 0 {
      k := 0;
    } else {
      var t := ScanStep(Scan(g, y, n));
      ClearFromUnfolds(g, y, n);
      var j := ClearFromIsScan(t.grid, t.y, t.count);
      k := j + 1;
      assert ScanSteps(Scan(g, y, n), k) == ScanSteps(t, j);
    }
  }

  // ---------------------------------------------------------------------------
  // Scoring (quadblox.c clearLines, the score table)

  /** Points for one lock that clears the given number of rows. */
  function ScoreFor(cleared: nat): (points: nat)
    ensures points > 0 <==> 1 <= cleared <= 4
  {
    if cleared == 1 then 1
    else if cleared == 2 then 3
    else if cleared == 3 then 6
    else if cleared == 4 then 12
    else 0
  }

  // ---------------------------------------------------------------------------
  // Seeding (quadblox.c addLine, clearBoard)

  /** The columns of a row that hold no tile. */
  function EmptyColumns(r: Row): set<int> {
    set x | 0 <= x < |r| && r[x] == 0
  }

  /** A seeded row: a tile of the drawn colour in every column but xSkip. */
  function SeedRow(xSkip: int, colours: seq<int>): (r: Row)
    requires 0 <= xSkip < Width && |colours| == Width
    requires forall x :: 0 <= x < Width ==> 1 <= colours[x] <= MaxColour
    ensures |r| == Width && !RowFull(r)
    ensures EmptyColumns(r) == {xSkip}
    ensures forall x :: 0 <= x < Width ==> 0 <= r[x] <= MaxColour
  {
    var r := seq(Width, x requires 0 <= x < Width => if x != xSkip then colours[x] else 0);
    assert r[xSkip] == 0;
    r
  }

  predicate ValidDraws(gaps: seq<int>, colours: seq<seq<int>>) {
    |gaps| == |colours| &&
    (forall i :: 0 <= i < |gaps| ==> 0 <= gaps[i] < Width) &&
    (forall i :: 0 <= i < |colours| ==> |colours[i]| == Width) &&
    (forall i, x :: 0 <= i < |colours| && 0 <= x < |colours[i]| ==> 1 <= colours[i][x] <= MaxColour)
  }

  /** The seeded rows, oldest (highest on the board) first. */
  function SeedRows(gaps: seq<int>, colours: seq<seq<int>>): (rows: seq<Row>)
    requires ValidDraws(gaps, colours)
    ensures |rows| == |gaps|
    ensures forall i :: 0 <= i < |rows| ==> rows[i] == SeedRow(gaps[i], colours[i])
  {
    if gaps == [] then []
    else
      SeedRows(gaps[..|gaps| - 1], colours[..|colours| - 1])
        + [SeedRow(gaps[|gaps| - 1], colours[|colours| - 1])]
  }

  /**
   * The board clearBoard leaves: empty rows above, then the seeded rows, each
   * with exactly one empty column at its drawn gap.
   */
  lemma SeededBoard(gaps: seq<int>, colours: seq<seq<int>>)
    requires ValidDraws(gaps, colours) && |gaps| <= Height
    ensures var g := Repeat(EmptyRow(), Height - |gaps|) + SeedRows(gaps, colours);
      && IsGrid(g) && NoFullRows(g) && ColoursOk(g)
      && (forall y, x :: 0 <= y < Height - |gaps| && 0 <= x < Width ==> g[y][x] == 0)
      && (forall i :: 0 <= i < |gaps| ==> EmptyColumns(g[Height - |gaps| + i]) == {gaps[i]})
  {
    var g := Repeat(EmptyRow(), Height - |gaps|) + SeedRows(gaps, colours);
    var e := EmptyRow();
    assert e[0] == 0;
    forall y | 0 <= y < Height
      ensures |g[y]| == Width && !RowFull(g[y])
      ensures forall x :: 0 <= x < Width ==> 0 <= g[y][x] <= MaxColour
    {
      if y >= Height - |gaps| {
        var i := y - (Height - |gaps|);
        assert g[y] == SeedRow(gaps[i], colours[i]);
      } else {
        assert g[y] == e;
      }
    }
  }

  /** One more addLine on a partly seeded board seeds one more row. */
  lemma SeedStep(gaps: seq<int>, colours: seq<seq<int>>, i: nat)
    requires ValidDraws(gaps, colours) && i < |gaps| <= Height
    ensures var g := Repeat(EmptyRow(), Height - i) + SeedRows(gaps[..i], colours[..i]);
      g[1..] + [SeedRow(gaps[i], colours[i])]
        == Repeat(EmptyRow(), Height - (i + 1)) + SeedRows(gaps[..i + 1], colours[..i + 1])
  {
    assert gaps[..i + 1][..i] == gaps[..i];
    assert colours[..i + 1][..i] == colours[..i];
    var rows := SeedRows(gaps[..i], colours[..i]);
    assert Repeat(EmptyRow(), Height - i)[1..] == Repeat(EmptyRow(), Height - (i + 1));
    assert (Repeat(EmptyRow(), Height - i) + rows)[1..] == Repeat(EmptyRow(), Height - i)[1..] + rows;
  }
}
