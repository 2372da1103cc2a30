/**
 The playfield of src/game/Board.ts: a 20-row, 10-column grid of optional
 colours, with the collision test, locking a piece into the grid, and line
 clearing. The grid is an immutable value; each operation returns the new grid.
 */
module Playfield {

  import opened Options
  import opened Pieces

  /** The field width; the same value the spawn column is centred in. */
  const Width := SpawnWidth
  const Height := 20

  type Cell = Option<Color>

  type Row = seq<Cell>

  type Grid = seq<Row>

  predicate WellFormed(g: Grid)
  {
    |g| == Height && forall r :: 0 <= r < |g| ==> |g[r]| == Width
  }

  predicate Full(row: Row)
  {
    forall c :: 0 <= c < |row| ==> row[c].Some?
  }

  predicate NoFullRows(g: Grid)
  {
    forall r :: 0 <= r < |g| ==> !Full(g[r])
  }

  function EmptyRow(): (row: Row)
    ensures |row| == Width && !Full(row)
    ensures forall c :: 0 <= c < |row| ==> row[c] == None
  {
    var row: Row := seq(Width, _ => None);
    assert row[0].None?;
    row
  }

  /** The grid built by the constructor and by `reset`: every cell empty. */
  function EmptyGrid(): (g: Grid)
    ensures WellFormed(g) && NoFullRows(g)
    ensures forall r, c :: 0 <= r < Height && 0 <= c < Width ==> g[r][c] == None
  {
    seq(Height, _ => EmptyRow())
  }

  // ---------------------------------------------------------------------------
  // Collision test

  /**
   Where a piece may be: every occupied cell, shifted by (dx, dy), lands in a
   column of [0, Width), in a row above Height, and, if its row is on the
   field, on an empty grid cell. Cells above the field (row < 0) are checked
   against the side walls only.
   */
  ghost predicate Fits(g: Grid, p: Piece, dx: int, dy: int)
    requires WellFormed(g)
  {
    forall row, col :: Occupied(p.matrix, row, col) ==>
      var tx, ty := p.x + col + dx, p.y + row + dy;
      0 <= tx < Width && ty < Height && (ty >= 0 ==> g[ty][tx] == None)
  }

  /** The inner loop of `isValidPosition`: the cells of matrix row `r` from column `c` on. */
  function ScanRow(g: Grid, p: Piece, dx: int, dy: int, r: nat, c: nat): bool
    requires WellFormed(g)
    requires r < |p.matrix| && c <= |p.matrix[r]|
    decreases |p.matrix[r]| - c
  {
    if c == |p.matrix[r]| then true
    else if p.matrix[r][c] != 0 then
      var tx, ty := p.x + c + dx, p.y + r + dy;
      if tx < 0 || tx >= Width || ty >= Height then false
      else if ty >= 0 && g[ty][tx] != None then false
      else ScanRow(g, p, dx, dy, r, c + 1)
    else ScanRow(g, p, dx, dy, r, c + 1)
  }

  /** The row scan accepts exactly when every occupied cell of the row from column `c` on is placeable. */
  lemma {:induction false} ScanRowMeaning(g: Grid, p: Piece, dx: int, dy: int, r: nat, c: nat)
    requires WellFormed(g)
    requires r < |p.matrix| && c <= |p.matrix[r]|
    ensures ScanRow(g, p, dx, dy, r, c) <==> forall k :: c <= k && Occupied(p.matrix, r, k) ==>
      var tx, ty := p.x + k + dx, p.y + r + dy;
      0 <= tx < Width && ty < Height && (ty >= 0 ==> g[ty][tx] == None)
    decreases |p.matrix[r]| - c
  {
    if c < |p.matrix[r]| {
      ScanRowMeaning(g, p, dx, dy, r, c + 1);
      if p.matrix[r][c] != 0 {
        assert Occupied(p.matrix, r, c);
      }
    }
  }

  /** The outer loop of `isValidPosition`: matrix rows from `r` on. */
  function ScanRows(g: Grid, p: Piece, dx: int, dy: int, r: nat): bool
    requires WellFormed(g)
    requires r <= |p.matrix|
    decreases |p.matrix| - r
  {
    if r == |p.matrix| then true
    else if !ScanRow(g, p, dx, dy, r, 0) then false
    else ScanRows(g, p, dx, dy, r + 1)
  }

  /** The scan of the rows from `r` on accepts exactly when all their occupied cells are placeable. */
  lemma {:induction false} ScanRowsMeaning(g: Grid, p: Piece, dx: int, dy: int, r: nat)
    requires WellFormed(g)
    requires r <= |p.matrix|
    ensures ScanRows(g, p, dx, dy, r) <==> forall row, col :: r <= row && Occupied(p.matrix, row, col) ==>
      var tx, ty := p.x + col + dx, p.y + row + dy;
      0 <= tx < Width && ty < Height && (ty >= 0 ==> g[ty][tx] == None)
    decreases |p.matrix| - r
  {
    if r < |p.matrix| {
      ScanRowMeaning(g, p, dx, dy, r, 0);
      ScanRowsMeaning(g, p, dx, dy, r + 1);
    }
  }

  /** `isValidPosition(p, dx, dy)`: the piece scanned cell by cell, row by row. */
  function IsValidPosition(g: Grid, p: Piece, dx: int, dy: int): bool
    requires WellFormed(g)
  {
    ScanRows(g, p, dx, dy, 0)
  }

  /** The scan accepts a placement exactly when the piece fits there. */
  lemma ValidPositionMeaning(g: Grid, p: Piece, dx: int, dy: int)
    requires WellFormed(g)
    ensures IsValidPosition(g, p, dx, dy) <==> Fits(g, p, dx, dy)
  {
    ScanRowsMeaning(g, p, dx, dy, 0);
  }

  /** Testing a piece with an offset is testing the moved piece. */
  lemma ValidShift(g: Grid, p: Piece, a: int, b: int, dx: int, dy: int)
    requires WellFormed(g)
    ensures IsValidPosition(g, p.(x := p.x + a, y := p.y + b), dx, dy) == IsValidPosition(g, p, dx + a, dy + b)
  {
    var q := p.(x := p.x + a, y := p.y + b);
    ValidPositionMeaning(g, q, dx, dy);
    ValidPositionMeaning(g, p, dx + a, dy + b);
    if IsValidPosition(g, q, dx, dy) {
      forall row, col | Occupied(p.matrix, row, col)
        ensures 0 <= p.x + col + dx + a < Width && p.y + row + dy + b < Height
      {
        assert Occupied(q.matrix, row, col);
      }
    }
  }

  /** A piece that fits somewhere has its top-left row above the floor. */
  lemma ValidBelowFloor(g: Grid, p: Piece, dy: int)
    requires WellFormed(g) && Cells(p.matrix) != {}
    requires IsValidPosition(g, p, 0, dy)
    ensures p.y + dy < Height
  {
    ValidPositionMeaning(g, p, 0, dy);
    var cell :| cell in Cells(p.matrix);
    CellsMembership(p.matrix, cell.0, cell.1);
  }

  /**
   A fresh catalogue piece is always placeable: all its cells sit above the
   field and inside the side walls, so the grid is never consulted.
   */
  lemma NewPieceValid(g: Grid, t: PieceType)
    requires WellFormed(g)
    ensures IsValidPosition(g, NewPiece(t), 0, 0)
  {
    ValidPositionMeaning(g, NewPiece(t), 0, 0);
  }

  // ---------------------------------------------------------------------------
  // Locking

  /** The inner loop of `lockTetromino`: writes the cells of matrix row `r` from column `c` on. */
  function LockRow(g: Grid, p: Piece, r: nat, c: nat): (g': Grid)
    requires WellFormed(g)
    requires r < |p.matrix| && c <= |p.matrix[r]|
    ensures WellFormed(g')
    ensures forall R, C :: 0 <= R < Height && 0 <= C < Width ==>
      g'[R][C] == if R == p.y + r && c <= C - p.x < |p.matrix[r]| && p.matrix[r][C - p.x] != 0
                  then Some(p.color) else g[R][C]
    decreases |p.matrix[r]| - c
  {
    if c == |p.matrix[r]| then g
    else if p.matrix[r][c] != 0 then
      var ty, tx := p.y + r, p.x + c;
      if 0 <= ty < Height && 0 <= tx < Width then
        LockRow(g[ty := g[ty][tx := Some(p.color)]], p, r, c + 1)
      else LockRow(g, p, r, c + 1)
    else LockRow(g, p, r, c + 1)
  }

  /** The outer loop of `lockTetromino`: matrix rows from `r` on. */
  function LockRows(g: Grid, p: Piece, r: nat): (g': Grid)
    requires WellFormed(g)
    requires r <= |p.matrix|
    ensures WellFormed(g')
    ensures forall R, C :: 0 <= R < Height && 0 <= C < Width ==>
      g'[R][C] == if r <= R - p.y && Occupied(p.matrix, R - p.y, C - p.x) then Some(p.color) else g[R][C]
    decreases |p.matrix| - r
  {
    if r == |p.matrix| then g
    else LockRows(LockRow(g, p, r, 0), p, r + 1)
  }

  /**
   `lockTetromino`: the piece's colour lands in exactly the grid cells under its
   occupied matrix cells; every other cell, and every cell the piece would put
   outside the grid, is left as it was.
   */
  function LockTetromino(g: Grid, p: Piece): (g': Grid)
    requires WellFormed(g)
    ensures WellFormed(g')
    ensures forall R, C :: 0 <= R < Height && 0 <= C < Width ==>
      g'[R][C] == if Occupied(p.matrix, R - p.y, C - p.x) then Some(p.color) else g[R][C]
  {
    LockRows(g, p, 0)
  }

  // ---------------------------------------------------------------------------
  // Line clearing

  /** The number of full rows, counted from the bottom of the sequence. */
  function CountFull(s: Grid): nat
  {
    if |s| == 0 then 0
    else CountFull(s[..|s| - 1]) + (if Full(s[|s| - 1]) then 1 else 0)
  }

  /** The rows that are not full, in their original order. */
  function NonFull(s: Grid): Grid
  {
    if |s| == 0 then []
    else NonFull(s[..|s| - 1]) + (if Full(s[|s| - 1]) then [] else [s[|s| - 1]])
  }

  function Blank(n: nat): (b: Grid)
    ensures |b| == n && forall i :: 0 <= i < n ==> b[i] == EmptyRow()
  {
    seq(n, _ => EmptyRow())
  }

  lemma {:induction false} NonFullSize(s: Grid)
    ensures |NonFull(s)| + CountFull(s) == |s|
    ensures NoFullRows(NonFull(s))
    ensures forall i :: 0 <= i < |NonFull(s)| ==> NonFull(s)[i] in s
  {
    if |s| > 0 {
      NonFullSize(s[..|s| - 1]);
    }
  }

  /** Putting a non-full row on top changes neither the count nor the order of the rest. */
  lemma {:induction false} PrependNonFull(row: Row, s: Grid)
    requires !Full(row)
    ensures CountFull([row] + s) == CountFull(s)
    ensures NonFull([row] + s) == [row] + NonFull(s)
    decreases |s|
  {
    if |s| > 0 {
      var t := [row] + s;
      assert t[..|t| - 1] == [row] + s[..|s| - 1];
      PrependNonFull(row, s[..|s| - 1]);
    } else {
      assert [row] + s == [row];
      assert ([row] + s)[..0] == [];
    }
  }

  /** Removing the full row `y` and putting an empty row on top: the part above `y` keeps its meaning. */
  lemma SpliceFullRow(g: Grid, y: nat)
    requires y < |g| && Full(g[y])
    ensures var g' := [EmptyRow()] + (g[..y] + g[y + 1..]);
      && |g'| == |g|
      && CountFull(g'[..y + 1]) + 1 == CountFull(g[..y + 1])
      && Blank(CountFull(g'[..y + 1])) + NonFull(g'[..y + 1]) + g'[y + 1..]
         == Blank(CountFull(g[..y + 1])) + NonFull(g[..y + 1]) + g[y + 1..]
  {
    var g' := [EmptyRow()] + (g[..y] + g[y + 1..]);
    assert g'[..y + 1] == [EmptyRow()] + g[..y];
    assert g'[y + 1..] == g[y + 1..];
    assert g[..y + 1][..y] == g[..y];
    PrependNonFull(EmptyRow(), g[..y]);
    assert Blank(CountFull(g[..y]) + 1) == Blank(CountFull(g[..y])) + [EmptyRow()];
  }

  /** Stepping past the non-full row `y`: the part above `y - 1` plus row `y` means the same. */
  lemma StepPastRow(g: Grid, y: nat)
    requires y < |g| && !Full(g[y])
    ensures CountFull(g[..y]) == CountFull(g[..y + 1])
    ensures Blank(CountFull(g[..y])) + NonFull(g[..y]) + g[y..]
         == Blank(CountFull(g[..y + 1])) + NonFull(g[..y + 1]) + g[y + 1..]
  {
    assert g[..y + 1][..y] == g[..y];
    assert g[y..] == [g[y]] + g[y + 1..];
  }

  /**
   The scan of `clearLines` from row index `y` upwards, `cleared` rows removed so
   far. A full row at `y` is spliced out and an empty row put on top, and the same
   index is examined again; otherwise the scan moves one row up.
   */
  function ClearScan(g: Grid, y: int, cleared: nat): (r: (Grid, nat))
    requires -1 <= y < |g|
    ensures r.0 == Blank(CountFull(g[..y + 1])) + NonFull(g[..y + 1]) + g[y + 1..]
    ensures r.1 == cleared + CountFull(g[..y + 1])
    decreases y + 1 + CountFull(g[..y + 1])
  {
    if y < 0 then
      assert g[..0] == [] && g[0..] == g;
      (g, cleared)
    else if Full(g[y]) then
      SpliceFullRow(g, y);
      ClearScan([EmptyRow()] + (g[..y] + g[y + 1..]), y, cleared + 1)
    else
      StepPastRow(g, y);
      ClearScan(g, y - 1, cleared)
  }

  /**
   `clearLines`: returns the number of full rows of the input; the new grid is
   that many empty rows followed by the input's non-full rows in their original
   order, so it keeps its 20x10 shape and holds no full row.
   */
  function ClearLines(g: Grid): (r: (Grid, nat))
    requires WellFormed(g)
    ensures r.1 == CountFull(g)
    ensures r.0 == Blank(r.1) + NonFull(g)
    ensures WellFormed(r.0) && NoFullRows(r.0)
  {
    var r := ClearScan(g, Height - 1, 0);
    assert g[..Height] == g && g[Height..] == [];
    NonFullSize(g);
    r
  }

  /** With no full row, there is nothing to clear: the grid comes back unchanged. */
  lemma {:induction false} NoFullRowsFixed(s: Grid)
    requires NoFullRows(s)
    ensures CountFull(s) == 0 && NonFull(s) == s
  {
    if |s| > 0 {
      NoFullRowsFixed(s[..|s| - 1]);
    }
  }

  lemma ClearLinesWithoutFullRows(g: Grid)
    requires WellFormed(g) && NoFullRows(g)
    ensures ClearLines(g) == (g, 0)
  {
    NoFullRowsFixed(g);
    assert Blank(0) + g == g;
  }

  /** Counting full rows that can only sit in the window [a, a+n): at most n of them. */
  lemma {:induction false} CountFullInWindow(s: Grid, a: int, n: nat)
    requires forall i :: 0 <= i < |s| && Full(s[i]) ==> a <= i < a + n
    ensures CountFull(s) <= WindowSize(|s|, a, n) <= n
  {
    if |s| > 0 {
      CountFullInWindow(s[..|s| - 1], a, n);
    }
  }

  /** How many of the indices 0..k-1 fall in [a, a+n). */
  function WindowSize(k: nat, a: int, n: nat): nat
  {
    var lo := if a < 0 then 0 else a;
    var hi := if k < a + n then k else a + n;
    if hi < lo then 0 else hi - lo
  }

  /**
   Locking a piece of height h into a grid with no full row makes at most h rows
   full: rows the piece does not touch keep their old, non-full contents.
   */
  lemma LockFillsAtMostHeight(g: Grid, p: Piece)
    requires WellFormed(g) && NoFullRows(g)
    ensures CountFull(LockTetromino(g, p)) <= |p.matrix|
  {
    var g' := LockTetromino(g, p);
    forall i | 0 <= i < |g'| && !(p.y <= i < p.y + |p.matrix|)
      ensures !Full(g'[i])
    {
      forall c | 0 <= c < Width
        ensures g'[i][c] == g[i][c]
      {
      }
      assert g'[i] == g[i];
    }
    CountFullInWindow(g', p.y, |p.matrix|);
  }
}
