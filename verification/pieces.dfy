/**
 The piece catalogue and rotation of src/game/Tetromino.ts.

 A shape is a square occupancy matrix; a cell is occupied when its entry is
 non-zero. Pieces are immutable values here, so a new piece never shares its
 matrix with the catalogue: rotating a piece yields a new piece and the
 catalogue is a constant function.
 */
module Pieces {

  datatype PieceType = I | J | L | O | S | T | Z

  type Matrix = seq<seq<int>>

  type Color = string

  datatype Definition = Definition(kind: PieceType, matrix: Matrix, color: Color)

  datatype Piece = Piece(kind: PieceType, matrix: Matrix, x: int, y: int, color: Color)

  datatype Direction = Left | Right

  /**
   The field width, 10. A new piece is centred in it (a literal 10 in the
   `Tetromino` constructor), and `Playfield.Width` is defined as this value.
   */
  const SpawnWidth := 10

  /** The row a new piece's matrix starts at: two rows above the visible field. */
  const SpawnRow := -2

  function Catalogue(t: PieceType): Definition
  {
    match t
    case I => Definition(I, [[0, 0, 0, 0], [1, 1, 1, 1], [0, 0, 0, 0], [0, 0, 0, 0]], "#00f0f0")
    case J => Definition(J, [[1, 0, 0], [1, 1, 1], [0, 0, 0]], "#0000f0")
    case L => Definition(L, [[0, 0, 1], [1, 1, 1], [0, 0, 0]], "#f0a000")
    case O => Definition(O, [[1, 1], [1, 1]], "#f0f000")
    case S => Definition(S, [[0, 1, 1], [1, 1, 0], [0, 0, 0]], "#00f000")
    case T => Definition(T, [[0, 1, 0], [1, 1, 1], [0, 0, 0]], "#a000f0")
    case Z => Definition(Z, [[1, 1, 0], [0, 1, 1], [0, 0, 0]], "#f00000")
  }

  predicate IsSquare(m: Matrix)
  {
    forall r :: 0 <= r < |m| ==> |m[r]| == |m|
  }

  predicate IsBinary(m: Matrix)
  {
    forall r, c :: 0 <= r < |m| && 0 <= c < |m[r]| ==> m[r][c] == 0 || m[r][c] == 1
  }

  predicate Occupied(m: Matrix, r: int, c: int)
  {
    0 <= r < |m| && 0 <= c < |m[r]| && m[r][c] != 0
  }

  /** The occupied cells of a matrix as (row, column) pairs. */
  function Cells(m: Matrix): set<(int, int)>
  {
    set r, c | 0 <= r < |m| && 0 <= c < |m[r]| && m[r][c] != 0 :: (r, c)
  }

  /** What every live piece's matrix satisfies: square, of size 2 to 4, with four cells. */
  predicate Shaped(m: Matrix)
  {
    IsSquare(m) && 2 <= |m| <= 4 && |Cells(m)| == 4
  }

  lemma CellsMembership(m: Matrix, r: int, c: int)
    ensures (r, c) in Cells(m) <==> Occupied(m, r, c)
  {
    if Occupied(m, r, c) {
      assert (r, c) in Cells(m);
    }
  }

  /** The occupied cells of each catalogue shape, listed by hand. */
  function ExpectedCells(t: PieceType): set<(int, int)>
  {
    match t
    case I => {(1, 0), (1, 1), (1, 2), (1, 3)}
    case J => {(0, 0), (1, 0), (1, 1), (1, 2)}
    case L => {(0, 2), (1, 0), (1, 1), (1, 2)}
    case O => {(0, 0), (0, 1), (1, 0), (1, 1)}
    case S => {(0, 1), (0, 2), (1, 0), (1, 1)}
    case T => {(0, 1), (1, 0), (1, 1), (1, 2)}
    case Z => {(0, 0), (0, 1), (1, 1), (1, 2)}
  }

  lemma CatalogueCells(t: PieceType)
    ensures Cells(Catalogue(t).matrix) == ExpectedCells(t)
  {
    var m := Catalogue(t).matrix;
    var e := ExpectedCells(t);
    forall cell | cell in Cells(m)
      ensures cell in e
    {
      var (r, c) := cell;
      CellsMembership(m, r, c);
      assert 0 <= r < |m| && 0 <= c < |m|;
    }
    forall cell | cell in e
      ensures cell in Cells(m)
    {
      CellsMembership(m, cell.0, cell.1);
    }
  }

  lemma ExpectedCellsFacts(t: PieceType)
    ensures |ExpectedCells(t)| == 4
    ensures forall cell :: cell in ExpectedCells(t) ==> 0 <= cell.0 <= 1
  {
    match t
    case I => case J => case L => case O => case S => case T => case Z =>
  }

  lemma CatalogueSquare(t: PieceType)
    ensures IsSquare(Catalogue(t).matrix) && IsBinary(Catalogue(t).matrix)
    ensures 2 <= |Catalogue(t).matrix| <= 4
  {
    match t
    case I => case J => case L => case O => case S => case T => case Z =>
  }

  /** Every catalogue entry is a square 0/1 matrix of size 2, 3 or 4 with exactly four occupied cells. */
  lemma CatalogueWellShaped(t: PieceType)
    ensures Catalogue(t).kind == t
    ensures Shaped(Catalogue(t).matrix) && IsBinary(Catalogue(t).matrix)
    ensures forall r, c :: Occupied(Catalogue(t).matrix, r, c) ==> 0 <= r <= 1
  {
    var m := Catalogue(t).matrix;
    CatalogueCells(t);
    CatalogueSquare(t);
    ExpectedCellsFacts(t);
    forall r, c | Occupied(m, r, c)
      ensures 0 <= r <= 1
    {
      CellsMembership(m, r, c);
    }
  }

  /** The column a fresh piece starts at: the field width minus the matrix width, halved and floored. */
  function SpawnX(m: Matrix): (x: int)
    requires |m| > 0
    requires |m[0]| <= SpawnWidth
    ensures 0 <= SpawnWidth - |m[0]| - 2 * x <= 1
  {
    (SpawnWidth - |m[0]|) / 2
  }

  /** `new Tetromino(type)`: the catalogue matrix and colour, centred two rows above the field. */
  function NewPiece(t: PieceType): (p: Piece)
    ensures p.kind == t && p.matrix == Catalogue(t).matrix && p.color == Catalogue(t).color
    ensures p.y == -2 && 0 <= SpawnWidth - |p.matrix[0]| - 2 * p.x <= 1
    ensures forall r, c :: Occupied(p.matrix, r, c) ==> 0 <= p.x + c < SpawnWidth && p.y + r < 0
  {
    CatalogueWellShaped(t);
    var m := Catalogue(t).matrix;
    Piece(t, m, SpawnX(m), SpawnRow, Catalogue(t).color)
  }

  /** The clockwise transform: cell (y, x) moves to (x, N-1-y). */
  function RotateRight(m: Matrix): (r: Matrix)
    requires IsSquare(m)
    ensures |r| == |m| && IsSquare(r)
    ensures forall y, x :: 0 <= y < |m| && 0 <= x < |m| ==> r[x][|m| - 1 - y] == m[y][x]
  {
    var n := |m|;
    seq(n, row requires 0 <= row < n => seq(n, col requires 0 <= col < n => m[n - 1 - col][row]))
  }

  /** The counter-clockwise transform: cell (y, x) moves to (N-1-x, y). */
  function RotateLeft(m: Matrix): (r: Matrix)
    requires IsSquare(m)
    ensures |r| == |m| && IsSquare(r)
    ensures forall y, x :: 0 <= y < |m| && 0 <= x < |m| ==> r[|m| - 1 - x][y] == m[y][x]
  {
    var n := |m|;
    seq(n, row requires 0 <= row < n => seq(n, col requires 0 <= col < n => m[col][n - 1 - row]))
  }

  function Rotate(m: Matrix, dir: Direction): (r: Matrix)
    requires IsSquare(m)
    ensures |r| == |m| && IsSquare(r)
  {
    match dir
    case Right => RotateRight(m)
    case Left => RotateLeft(m)
  }

  function Opposite(dir: Direction): Direction
  {
    match dir
    case Right => Left
    case Left => Right
  }

  /** `rotate(dir)` on a piece: only the matrix changes. */
  function RotatePiece(p: Piece, dir: Direction): (q: Piece)
    requires IsSquare(p.matrix)
    ensures q.kind == p.kind && q.x == p.x && q.y == p.y && q.color == p.color
    ensures q.matrix == Rotate(p.matrix, dir)
  {
    p.(matrix := Rotate(p.matrix, dir))
  }

  /** Turning left and then right, or right and then left, restores the matrix exactly. */
  lemma RotateInverse(m: Matrix)
    requires IsSquare(m)
    ensures RotateRight(RotateLeft(m)) == m
    ensures RotateLeft(RotateRight(m)) == m
  {
    var n := |m|;
    var a := RotateRight(RotateLeft(m));
    forall y | 0 <= y < n
      ensures a[y] == m[y]
    {
      forall x | 0 <= x < n
        ensures a[y][x] == m[y][x]
      {
        assert RotateLeft(m)[n - 1 - x][y] == m[y][x];
        assert a[y][n - 1 - (n - 1 - x)] == RotateLeft(m)[n - 1 - x][y];
      }
    }
    var b := RotateLeft(RotateRight(m));
    forall y | 0 <= y < n
      ensures b[y] == m[y]
    {
      forall x | 0 <= x < n
        ensures b[y][x] == m[y][x]
      {
        assert RotateRight(m)[x][n - 1 - y] == m[y][x];
        assert b[n - 1 - (n - 1 - y)][x] == RotateRight(m)[x][n - 1 - y];
      }
    }
  }

  lemma OppositeUndoes(m: Matrix, dir: Direction)
    requires IsSquare(m)
    ensures Rotate(Rotate(m, dir), Opposite(dir)) == m
  {
    RotateInverse(m);
  }

  /** Two clockwise turns are the half turn: (y, x) moves to (N-1-y, N-1-x). */
  lemma HalfTurnRight(m: Matrix)
    requires IsSquare(m)
    ensures forall y, x :: 0 <= y < |m| && 0 <= x < |m| ==>
      RotateRight(RotateRight(m))[y][x] == m[|m| - 1 - y][|m| - 1 - x]
  {
    var n := |m|;
    var h := RotateRight(RotateRight(m));
    forall y, x | 0 <= y < n && 0 <= x < n
      ensures h[y][x] == m[n - 1 - y][n - 1 - x]
    {
      assert RotateRight(m)[n - 1 - x][n - 1 - (n - 1 - y)] == m[n - 1 - y][n - 1 - x];
      assert h[y][n - 1 - (n - 1 - x)] == RotateRight(m)[n - 1 - x][y];
    }
  }

  /** Four clockwise turns return the original matrix. */
  lemma FourTurnsRight(m: Matrix)
    requires IsSquare(m)
    ensures RotateRight(RotateRight(RotateRight(RotateRight(m)))) == m
  {
    var n := |m|;
    var h := RotateRight(RotateRight(m));
    HalfTurnRight(m);
    HalfTurnRight(h);
    var f := RotateRight(RotateRight(h));
    forall y | 0 <= y < n
      ensures f[y] == m[y]
    {
      forall x | 0 <= x < n
        ensures f[y][x] == m[y][x]
      {
        assert f[y][x] == h[n - 1 - y][n - 1 - x];
      }
    }
  }

  /** Four counter-clockwise turns return the original matrix. */
  lemma FourTurnsLeft(m: Matrix)
    requires IsSquare(m)
    ensures RotateLeft(RotateLeft(RotateLeft(RotateLeft(m)))) == m
  {
    var l1 := RotateLeft(m);
    var l2 := RotateLeft(l1);
    var l3 := RotateLeft(l2);
    var l4 := RotateLeft(l3);
    // Undoing the four left turns one at a time gives back m; the four right turns are the identity.
    RotateInverse(l3);
    RotateInverse(l2);
    RotateInverse(l1);
    RotateInverse(m);
    FourTurnsRight(l4);
  }

  ghost function Image<A, B>(s: set<A>, f: A -> B): set<B>
  {
    set a | a in s :: f(a)
  }

  /** The image of a set under an injective map has the same size. */
  lemma InjectiveImageSize<A, B>(s: set<A>, f: A -> B)
    requires forall a, b :: a in s && b in s && f(a) == f(b) ==> a == b
    ensures |Image(s, f)| == |s|
    decreases |s|
  {
    if s != {} {
      var a :| a in s;
      var rest := s - {a};
      InjectiveImageSize(rest, f);
      assert Image(s, f) == Image(rest, f) + {f(a)};
      assert f(a) !in Image(rest, f);
    }
  }

  /** Rotation moves each occupied cell to exactly one occupied cell, so the cell count is kept. */
  lemma RotateKeepsCells(m: Matrix, dir: Direction)
    requires IsSquare(m)
    ensures |Cells(Rotate(m, dir))| == |Cells(m)|
  {
    var n := |m|;
    var r := Rotate(m, dir);
    var f: ((int, int)) -> (int, int) :=
      (cell: (int, int)) => if dir == Right then (cell.1, n - 1 - cell.0) else (n - 1 - cell.1, cell.0);
    var img := Image(Cells(m), f);
    forall cell | cell in Cells(r)
      ensures cell in img
    {
      var (a, b) := cell;
      CellsMembership(r, a, b);
      var src := if dir == Right then (n - 1 - b, a) else (b, n - 1 - a);
      if dir == Right {
        assert r[a][n - 1 - (n - 1 - b)] == m[n - 1 - b][a];
      } else {
        assert r[n - 1 - (n - 1 - a)][b] == m[b][n - 1 - a];
      }
      CellsMembership(m, src.0, src.1);
      assert f(src) == cell;
    }
    forall cell | cell in img
      ensures cell in Cells(r)
    {
      var src :| src in Cells(m) && f(src) == cell;
      CellsMembership(m, src.0, src.1);
      CellsMembership(r, cell.0, cell.1);
    }
    assert Cells(r) == img;
    forall a, b | a in Cells(m) && b in Cells(m) && f(a) == f(b)
      ensures a == b
    {
    }
    InjectiveImageSize(Cells(m), f);
  }

  /** Rotation keeps a live shape live: square, same size, same number of cells. */
  lemma RotateKeepsShaped(m: Matrix, dir: Direction)
    requires Shaped(m)
    ensures Shaped(Rotate(m, dir))
  {
    RotateKeepsCells(m, dir);
  }
}
