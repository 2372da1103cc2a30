/**
 The game logic of src/scenes/GameScene.ts, without drawing. One frame is
 `Update`: the player's input is applied (shift, rotation with a one-column
 wall kick, soft drop, hard drop, hold), then gravity, then the lock delay.
 Locking a piece writes it into the playfield, clears full rows, scores them
 and deals the next piece from the bag. Every step keeps `Inv`, and score,
 lines and level never go down.
 */
module GameScene {

  import opened Options
  import opened Pieces
  import opened Playfield
  import opened Sequencer
  import Input

  /**
   The scene's state. `current` is empty only before the first piece is dealt;
   `held` is the piece in the hold slot.
   */
  datatype Game = Game(
    board: Grid,
    bag: Bag,
    current: Option<Piece>,
    held: Option<Piece>,
    canHold: bool,
    score: int,
    lines: nat,
    level: int,
    isGameOver: bool,
    dropTimer: real,
    dropInterval: real,
    lockTimer: real)

  /** Seconds a grounded piece may rest before it locks. */
  const LockDelay: real := 0.5

  /** The gravity interval, in seconds, while soft drop is held. */
  const SoftDropInterval: real := 0.05

  /** Points for clearing 0, 1, 2, 3 or 4 rows at once, before the level multiplier. */
  const BasePoints: seq<int> := [0, 100, 300, 500, 800]

  /** Points for each row a hard drop falls. */
  const HardDropPoints := 2

  /**
   What holds between frames: a 20 by 10 playfield with no full row, a live
   piece of four cells (and a held one, if any), the level derived from the
   cleared lines, a score that is never negative, and — until the game is
   over — a live piece in a legal place.
   */
  predicate Inv(s: Game)
  {
    WellFormed(s.board) && NoFullRows(s.board) &&
    s.current.Some? && Shaped(s.current.value.matrix) &&
    (s.held.Some? ==> Shaped(s.held.value.matrix)) &&
    s.level == s.lines / 10 + 1 && s.score >= 0 &&
    (!s.isGameOver ==> IsValidPosition(s.board, s.current.value, 0, 0))
  }

  /** Between two states of one game: nothing is lost and a finished game stays finished. */
  predicate Progress(s: Game, r: Game)
  {
    s.score <= r.score && s.lines <= r.lines && s.level <= r.level &&
    (s.isGameOver ==> r.isGameOver)
  }

  // ---------------------------------------------------------------------------
  // Level and speed

  function Pow(b: real, e: nat): real
  {
    if e == 0 then 1.0 else b * Pow(b, e - 1)
  }

  lemma {:induction false} PowInUnit(b: real, e: nat)
    requires 0.0 < b <= 1.0
    ensures 0.0 < Pow(b, e) <= 1.0
  {
    if e > 0 {
      PowInUnit(b, e - 1);
      var p := Pow(b, e - 1);
      assert b * p <= 1.0 * p;
    }
  }

  lemma {:induction false} PowMonotone(a: real, b: real, e: nat)
    requires 0.0 <= a <= b
    ensures 0.0 <= Pow(a, e) <= Pow(b, e)
  {
    if e > 0 {
      PowMonotone(a, b, e - 1);
      var pa, pb := Pow(a, e - 1), Pow(b, e - 1);
      assert a * pa <= b * pa;
      assert b * pa <= b * pb;
    }
  }

  /**
   The gravity interval of a level: (0.8 - (level - 1) * 0.007) to the power
   level - 1, in exact arithmetic. Level 1 falls one row a second, and up to
   level 115 the interval stays within (0, 1]; past that the base turns
   negative.
   */
  function SpeedCurve(level: int): (interval: real)
    requires level >= 1
    ensures level == 1 ==> interval == 1.0
    ensures level <= 115 ==> 0.0 < interval <= 1.0
  {
    var base := 0.8 - (level - 1) as real * 0.007;
    assert level <= 115 ==> 0.0 < Pow(base, level - 1) <= 1.0 by {
      if level <= 115 {
        PowInUnit(base, level - 1);
      }
    }
    Pow(base, level - 1)
  }

  /** Every level up to 115 falls strictly faster than the one before. */
  lemma SpeedCurveFaster(level: int)
    requires 1 <= level < 115
    ensures SpeedCurve(level + 1) < SpeedCurve(level)
  {
    var b1 := 0.8 - (level - 1) as real * 0.007;
    var b2 := 0.8 - level as real * 0.007;
    var e: nat := level - 1;
    PowInUnit(b1, e);
    PowMonotone(b2, b1, e);
    calc {
      SpeedCurve(level + 1);
    ==
      b2 * Pow(b2, e);
    <=
      b2 * Pow(b1, e);
    <
      Pow(b1, e);
    ==
      SpeedCurve(level);
    }
  }

  /**
   `updateLevel`: the level is one more than the tens of cleared lines, and
   the gravity interval follows the speed curve. Nothing else changes.
   */
  function UpdateLevel(s: Game): (r: Game)
    ensures 10 * (r.level - 1) <= s.lines < 10 * r.level
    ensures r.dropInterval == SpeedCurve(r.level)
    ensures r.(level := s.level, dropInterval := s.dropInterval) == s
  {
    var level := s.lines / 10 + 1;
    s.(level := level, dropInterval := SpeedCurve(level))
  }

  /**
   `updateScore`: clearing no row changes nothing; otherwise the score grows by
   the base points of that many rows times the current level, the lines add
   up, and the level is brought up to date. At most four rows clear at once
   (see `Lock`), so the table lookup is always defined.
   */
  function UpdateScore(s: Game, cleared: nat): (r: Game)
    requires cleared < |BasePoints|
    ensures cleared == 0 ==> r == s
    ensures cleared > 0 ==> r.score == s.score + BasePoints[cleared] * s.level
    ensures r.lines == s.lines + cleared
    ensures cleared > 0 ==> r.level == r.lines / 10 + 1 && r.dropInterval == SpeedCurve(r.level)
    ensures cleared > 0 ==> r.(score := s.score, lines := s.lines, level := s.level, dropInterval := s.dropInterval) == s
  {
    if cleared == 0 then s
    else UpdateLevel(s.(score := s.score + BasePoints[cleared] * s.level, lines := s.lines + cleared))
  }

  // ---------------------------------------------------------------------------
  // Dealing, locking and holding

  /**
   `spawnTetromino`: the next piece of the bag becomes the live one, hold is
   allowed again and the lock timer restarts. The game ends if the new piece
   collides, which a freshly dealt piece never does: it spawns wholly above
   the visible rows.
   */
  function SpawnTetromino(s: Game): (r: Game)
    requires WellFormed(s.board)
    ensures r.board == s.board
    ensures r.current == Some(Next(s.bag).1) && r.bag == Next(s.bag).0
    ensures Shaped(r.current.value.matrix) && IsValidPosition(r.board, r.current.value, 0, 0)
    ensures r.canHold && r.lockTimer == 0.0
    ensures r.isGameOver == s.isGameOver
    ensures r.(current := s.current, bag := s.bag, canHold := s.canHold, lockTimer := s.lockTimer) == s
  {
    var (bag, p) := Next(s.bag);
    CatalogueWellShaped(p.kind);
    NewPieceValid(s.board, p.kind);
    var r := s.(current := Some(p), bag := bag, canHold := true, lockTimer := 0.0);
    if !IsValidPosition(s.board, p, 0, 0) then r.(isGameOver := true) else r
  }

  /** The scan of one matrix row in the lock-out check, from column `c` on. */
  function RowLocksOut(p: Piece, r: nat, c: nat): (out: bool)
    requires r < |p.matrix| && c <= |p.matrix[r]|
    ensures out <==> exists k :: c <= k && Occupied(p.matrix, r, k) && p.y + r < 0
    decreases |p.matrix[r]| - c
  {
    if c == |p.matrix[r]| then false
    else if p.matrix[r][c] != 0 && p.y + r < 0 then
      assert Occupied(p.matrix, r, c);
      true
    else RowLocksOut(p, r, c + 1)
  }

  /** The lock-out check of `lock` over the rows from `r` on. */
  function LockOutFrom(p: Piece, r: nat): (out: bool)
    requires r <= |p.matrix|
    ensures out <==> exists row, col :: r <= row && Occupied(p.matrix, row, col) && p.y + row < 0
    decreases |p.matrix| - r
  {
    if r == |p.matrix| then false
    else RowLocksOut(p, r, 0) || LockOutFrom(p, r + 1)
  }

  /** A piece locks out when any of its cells lies above the visible playfield. */
  function IsLockOut(p: Piece): (out: bool)
    ensures out <==> exists row, col :: Occupied(p.matrix, row, col) && p.y + row < 0
  {
    LockOutFrom(p, 0)
  }

  /**
   `lock`: a piece with a cell above the playfield ends the game and leaves the
   playfield untouched. Otherwise the piece is written into the playfield, the
   full rows are cleared and scored (never more than four), and the next piece
   is dealt.
   */
  function Lock(s: Game): (r: Game)
    requires Inv(s)
    ensures Inv(r) && Progress(s, r)
    ensures IsLockOut(s.current.value) ==> r == s.(isGameOver := true)
    ensures !IsLockOut(s.current.value) ==>
      r.current == Some(Next(s.bag).1) && r.bag == Next(s.bag).0 &&
      r.canHold && r.lockTimer == 0.0 && r.isGameOver == s.isGameOver && r.lines <= s.lines + 4
    ensures !IsLockOut(s.current.value) ==>
      r.(board := s.board, current := s.current, bag := s.bag, canHold := s.canHold, lockTimer := s.lockTimer,
         score := s.score, lines := s.lines, level := s.level, dropInterval := s.dropInterval) == s
    ensures !IsLockOut(s.current.value) ==>
      r.dropInterval == if r.lines == s.lines then s.dropInterval else SpeedCurve(r.level)
  {
    var p := s.current.value;
    if IsLockOut(p) then s.(isGameOver := true)
    else
      var locked := LockTetromino(s.board, p);
      LockFillsAtMostHeight(s.board, p);
      var (board, cleared) := ClearLines(locked);
      var scored := UpdateScore(s.(board := board), cleared);
      assert scored.board == board && scored.held == s.held && scored.isGameOver == s.isGameOver;
      assert scored.level == scored.lines / 10 + 1 && s.score <= scored.score && s.level <= scored.level;
      SpawnTetromino(scored.(current := None))
  }

  /**
   What a lock that does not lock out leaves behind: the playfield with the
   piece written in and its full rows cleared, the cleared rows added to the
   lines, and their base points times the level added to the score.
   */
  lemma LockClears(s: Game)
    requires Inv(s) && !IsLockOut(s.current.value)
    ensures var (board, cleared) := ClearLines(LockTetromino(s.board, s.current.value));
      cleared <= 4 && Lock(s).board == board && Lock(s).lines == s.lines + cleared &&
      Lock(s).score == s.score + BasePoints[cleared] * s.level
  {
    LockFillsAtMostHeight(s.board, s.current.value);
  }

  /**
   `hold`: allowed once per dealt piece. The first hold parks the live piece
   and deals the next one; later holds swap the live piece with the parked
   one, which returns at the top centre in the orientation it was parked in,
   and the game ends if it collides there.
   */
  function Hold(s: Game): (r: Game)
    requires Inv(s)
    ensures Inv(r) && Progress(s, r)
    ensures !s.canHold ==> r == s
    ensures s.canHold ==> !r.canHold && r.held == s.current && r.board == s.board && r.score == s.score
    ensures s.canHold && s.held.None? ==>
      r.current == Some(Next(s.bag).1) && r.bag == Next(s.bag).0 && r.lockTimer == 0.0 &&
      r.(current := s.current, held := s.held, bag := s.bag, canHold := s.canHold, lockTimer := s.lockTimer) == s
    ensures s.canHold && s.held.Some? ==>
      var h, q := s.held.value, r.current.value;
      q == h.(x := q.x, y := SpawnRow) && 0 <= SpawnWidth - |q.matrix[0]| - 2 * q.x <= 1 &&
      r == s.(current := Some(q), held := s.current, canHold := false,
              isGameOver := s.isGameOver || !IsValidPosition(s.board, q, 0, 0))
  {
    if !s.canHold then s
    else match s.held
      case None =>
        SpawnTetromino(s.(held := s.current)).(canHold := false)
      case Some(h) =>
        var q := h.(x := SpawnX(h.matrix), y := SpawnRow);
        var swapped := s.(current := Some(q), held := s.current, canHold := false);
        if !IsValidPosition(s.board, q, 0, 0) then swapped.(isGameOver := true) else swapped
  }

  // ---------------------------------------------------------------------------
  // Falling

  /**
   The hard-drop loop: the piece moves down while the row below is free. It
   ends `rows` rows lower, every row on the way was free, and the next one is
   not.
   */
  function HardDropLoop(g: Grid, p: Piece): (r: (Piece, nat))
    requires WellFormed(g) && Cells(p.matrix) != {}
    ensures r.0 == p.(y := p.y + r.1)
    ensures forall j :: 0 < j <= r.1 ==> IsValidPosition(g, p, 0, j)
    ensures !IsValidPosition(g, p, 0, r.1 + 1)
    decreases Height - p.y
  {
    if IsValidPosition(g, p, 0, 1) then
      ValidBelowFloor(g, p, 1);
      var q := p.(y := p.y + 1);
      var (landed, rows) := HardDropLoop(g, q);
      forall j | 1 < j <= rows + 1 ensures IsValidPosition(g, p, 0, j) {
        ValidShift(g, p, 0, 1, 0, j - 1);
      }
      ValidShift(g, p, 0, 1, 0, rows + 1);
      (landed, rows + 1)
    else (p, 0)
  }

  /**
   The ghost loop of `render`: starting `d` rows below the piece, how much
   further it could fall. The ghost is drawn at `p.y` plus this offset.
   */
  function GhostOffset(g: Grid, p: Piece, d: nat): (r: nat)
    requires WellFormed(g) && Cells(p.matrix) != {}
    ensures d <= r
    ensures forall j :: d < j <= r ==> IsValidPosition(g, p, 0, j)
    ensures !IsValidPosition(g, p, 0, r + 1)
    decreases Height - p.y - d
  {
    if IsValidPosition(g, p, 0, d + 1) then
      ValidBelowFloor(g, p, d + 1);
      GhostOffset(g, p, d + 1)
    else d
  }

  /** The row where the ghost of the live piece is drawn. */
  function GhostRow(g: Grid, p: Piece): int
    requires WellFormed(g) && Cells(p.matrix) != {}
  {
    p.y + GhostOffset(g, p, 0)
  }

  /** A hard drop lands exactly where the ghost is drawn, and scores two points per row it falls. */
  lemma HardDropLandsOnGhost(g: Grid, p: Piece)
    requires WellFormed(g) && Cells(p.matrix) != {}
    ensures HardDropLoop(g, p).0.y == GhostRow(g, p)
    ensures HardDropLoop(g, p).1 == GhostOffset(g, p, 0)
  {
  }

  /** `moveDown`: one row down if that place is free, otherwise nothing. */
  function MoveDown(s: Game): (r: Game)
    requires Inv(s)
    ensures Inv(r) && Progress(s, r)
    ensures IsValidPosition(s.board, s.current.value, 0, 1) ==>
      r == s.(current := Some(s.current.value.(y := s.current.value.y + 1)))
    ensures !IsValidPosition(s.board, s.current.value, 0, 1) ==> r == s
  {
    var p := s.current.value;
    if IsValidPosition(s.board, p, 0, 1) then
      ValidShift(s.board, p, 0, 1, 0, 0);
      s.(current := Some(p.(y := p.y + 1)))
    else s
  }

  /** The hard drop of `handleInput`: fall while the row below is free, two points a row, then lock. */
  function HardDrop(s: Game): (r: Game)
    requires Inv(s)
    ensures Inv(r) && Progress(s, r)
  {
    var p := s.current.value;
    var (q, rows) := HardDropLoop(s.board, p);
    ValidShift(s.board, p, 0, rows, 0, 0);
    Lock(s.(current := Some(q), score := s.score + HardDropPoints * rows))
  }

  /**
   The state a hard drop locks: the piece moved down to its ghost row, two
   points for each row between. It is a legal state in its own right.
   */
  function AtGhost(s: Game): (r: Game)
    requires Inv(s)
    ensures Inv(r) && Progress(s, r)
    ensures r.current.value.y == GhostRow(s.board, s.current.value)
    ensures var p, q := s.current.value, r.current.value;
      q == p.(y := q.y) && r.score == s.score + HardDropPoints * (q.y - p.y) &&
      r.(current := s.current, score := s.score) == s
  {
    var p := s.current.value;
    var rows := GhostOffset(s.board, p, 0);
    ValidShift(s.board, p, 0, rows, 0, 0);
    s.(current := Some(p.(y := p.y + rows)), score := s.score + HardDropPoints * rows)
  }

  /** A hard drop is a lock at the ghost row. */
  lemma HardDropAtGhost(s: Game)
    requires Inv(s)
    ensures HardDrop(s) == Lock(AtGhost(s))
  {
    var p := s.current.value;
    HardDropLandsOnGhost(s.board, p);
    var rows := GhostOffset(s.board, p, 0);
    assert HardDropLoop(s.board, p) == (p.(y := p.y + rows), rows);
  }

  // ---------------------------------------------------------------------------
  // Input

  /**
   Horizontal movement: a press of move-left wins over move-right; the piece
   moves one column only if that place is free, which also restarts the lock
   timer.
   */
  function Shift(s: Game, inp: Input.InputManager): (r: Game)
    requires Inv(s)
    ensures Inv(r) && Progress(s, r)
    ensures var p, q := s.current.value, r.current.value;
      q == p.(x := q.x) && -1 <= q.x - p.x <= 1 &&
      (q.x != p.x ==> r.lockTimer == 0.0 && IsValidPosition(s.board, p, q.x - p.x, 0)) &&
      (q.x < p.x <==> (Input.IsPressed(inp, Input.MoveLeft) && IsValidPosition(s.board, p, -1, 0))) &&
      (q.x > p.x <==> (!Input.IsPressed(inp, Input.MoveLeft) && Input.IsPressed(inp, Input.MoveRight) &&
        IsValidPosition(s.board, p, 1, 0)))
    ensures r.(current := s.current, lockTimer := s.lockTimer) == s
    ensures r.current == s.current ==> r == s
  {
    var p := s.current.value;
    var dx := if Input.IsPressed(inp, Input.MoveLeft) then -1
      else if Input.IsPressed(inp, Input.MoveRight) then 1
      else 0;
    if dx != 0 && IsValidPosition(s.board, p, dx, 0) then
      ValidShift(s.board, p, dx, 0, 0, 0);
      s.(current := Some(p.(x := p.x + dx)), lockTimer := 0.0)
    else s
  }

  /**
   Rotation with the basic wall kick: the turned piece stays where it is if
   that is free, else tries one column right, then one column left, and
   otherwise turns back. Only the unkicked rotation restarts the lock timer.
   */
  function Turn(s: Game, dir: Direction): (r: Game)
    requires Inv(s)
    ensures Inv(r) && Progress(s, r)
    ensures var p := s.current.value;
      var q := RotatePiece(p, dir);
      (IsValidPosition(s.board, q, 0, 0) ==> r == s.(current := Some(q), lockTimer := 0.0)) &&
      (!IsValidPosition(s.board, q, 0, 0) && IsValidPosition(s.board, q, 1, 0) ==>
        r == s.(current := Some(q.(x := q.x + 1)))) &&
      (!IsValidPosition(s.board, q, 0, 0) && !IsValidPosition(s.board, q, 1, 0) && IsValidPosition(s.board, q, -1, 0) ==>
        r == s.(current := Some(q.(x := q.x - 1)))) &&
      (!IsValidPosition(s.board, q, 0, 0) && !IsValidPosition(s.board, q, 1, 0) && !IsValidPosition(s.board, q, -1, 0) ==>
        r == s)
  {
    var p := s.current.value;
    RotateKeepsShaped(p.matrix, dir);
    var q := RotatePiece(p, dir);
    if !IsValidPosition(s.board, q, 0, 0) then
      if IsValidPosition(s.board, q, 1, 0) then
        ValidShift(s.board, q, 1, 0, 0, 0);
        s.(current := Some(q.(x := q.x + 1)))
      else if IsValidPosition(s.board, q, -1, 0) then
        ValidShift(s.board, q, -1, 0, 0, 0);
        s.(current := Some(q.(x := q.x - 1)))
      else
        OppositeUndoes(p.matrix, dir);
        s.(current := Some(RotatePiece(q, Opposite(dir))))
    else s.(current := Some(q), lockTimer := 0.0)
  }

  /** Soft drop: while held, gravity runs at the fixed fast interval; otherwise the level's interval is restored. */
  function ApplySoftDrop(s: Game, inp: Input.InputManager): (r: Game)
    requires Inv(s)
    ensures Inv(r) && Progress(s, r)
    ensures r.dropInterval == if Input.IsDown(inp, Input.SoftDrop) then SoftDropInterval else SpeedCurve(s.level)
    ensures r.(dropInterval := s.dropInterval) == s
  {
    if Input.IsDown(inp, Input.SoftDrop) then s.(dropInterval := SoftDropInterval)
    else UpdateLevel(s)
  }

  /** `handleInput`: shift, then rotation (left wins), then soft drop, then hard drop, then hold. */
  function HandleInput(s: Game, inp: Input.InputManager): (r: Game)
    requires Inv(s)
    ensures Inv(r) && Progress(s, r)
  {
    var shifted := Shift(s, inp);
    var turned :=
      if Input.IsPressed(inp, Input.RotateLeft) then Turn(shifted, Left)
      else if Input.IsPressed(inp, Input.RotateRight) then Turn(shifted, Right)
      else shifted;
    var paced := ApplySoftDrop(turned, inp);
    var dropped := if Input.IsPressed(inp, Input.HardDrop) then HardDrop(paced) else paced;
    if Input.IsPressed(inp, Input.Hold) then Hold(dropped) else dropped
  }

  // ---------------------------------------------------------------------------
  // The frame

  /** Gravity: once the drop timer reaches the interval it restarts and the piece moves down a row. */
  function Gravity(s: Game, dt: real): (r: Game)
    requires Inv(s)
    ensures Inv(r) && Progress(s, r)
    ensures s.dropTimer + dt >= s.dropInterval ==>
      var p := s.current.value;
      r == s.(dropTimer := 0.0, current := Some(if IsValidPosition(s.board, p, 0, 1) then p.(y := p.y + 1) else p))
    ensures s.dropTimer + dt < s.dropInterval ==> r == s.(dropTimer := s.dropTimer + dt)
    ensures r.board == s.board && r.score == s.score && r.isGameOver == s.isGameOver
  {
    var t := s.dropTimer + dt;
    if t >= s.dropInterval then MoveDown(s.(dropTimer := 0.0)) else s.(dropTimer := t)
  }

  /**
   The lock delay: while the piece rests on something its timer runs, and it
   locks once the timer reaches half a second; a piece that can still fall has
   its timer reset.
   */
  function Settle(s: Game, dt: real): (r: Game)
    requires Inv(s)
    ensures !IsValidPosition(s.board, s.current.value, 0, 1) && s.lockTimer + dt >= LockDelay ==>
      r == Lock(s.(lockTimer := s.lockTimer + dt))
    ensures Inv(r) && Progress(s, r)
    ensures IsValidPosition(s.board, s.current.value, 0, 1) ==> r == s.(lockTimer := 0.0)
    ensures !IsValidPosition(s.board, s.current.value, 0, 1) && s.lockTimer + dt < LockDelay ==>
      r == s.(lockTimer := s.lockTimer + dt)
    ensures !IsValidPosition(s.board, s.current.value, 0, 1) && s.lockTimer + dt >= LockDelay ==>
      r.current == Some(Next(s.bag).1) || r.isGameOver
  {
    if !IsValidPosition(s.board, s.current.value, 0, 1) then
      var t := s.lockTimer + dt;
      if t >= LockDelay then Lock(s.(lockTimer := t)) else s.(lockTimer := t)
    else s.(lockTimer := 0.0)
  }

  /**
   `update`: a finished game and a press of pause (which leaves for the title
   screen) change nothing; otherwise input, gravity and the lock delay run in
   that order.
   */
  function Update(s: Game, dt: real, inp: Input.InputManager): (r: Game)
    requires Inv(s)
    ensures Inv(r) && Progress(s, r)
    ensures s.isGameOver ==> r == s
    ensures Input.IsPressed(inp, Input.Pause) ==> r == s
  {
    if s.isGameOver then s
    else if Input.IsPressed(inp, Input.Pause) then s
    else Settle(Gravity(HandleInput(s, inp), dt), dt)
  }

  /**
   The constructor followed by `enter`: an empty playfield, a fresh bag, the
   first piece dealt, level 1 and a one-second gravity interval.
   */
  function NewGame(rng: Rng): (r: Game)
    ensures Inv(r) && !r.isGameOver
    ensures r.score == 0 && r.lines == 0 && r.level == 1 && r.dropInterval == 1.0
    ensures r.board == EmptyGrid() && r.held == None && r.canHold
    ensures r.dropTimer == 0.0 && r.lockTimer == 0.0
    ensures r.current == Some(Next(NewBag(rng)).1) && r.bag == Next(NewBag(rng)).0
  {
    var start := Game(EmptyGrid(), NewBag(rng), None, None, true, 0, 0, 1, false, 0.0, 1.0, 0.0);
    UpdateLevel(SpawnTetromino(start))
  }

  /** Holding twice in a row is the same as holding once. */
  lemma HoldOncePerPiece(s: Game)
    requires Inv(s)
    ensures Hold(Hold(s)) == Hold(s)
  {
  }

  /** The state after a sequence of frames, from a new game. */
  function Play(rng: Rng, frames: seq<(real, Input.InputManager)>): (r: Game)
    ensures Inv(r)
  {
    if |frames| == 0 then NewGame(rng)
    else
      var last := frames[|frames| - 1];
      Update(Play(rng, frames[..|frames| - 1]), last.0, last.1)
  }

  /** Along any play, score, lines and level never go down, and once over the game stays over. */
  lemma {:induction false} PlayProgress(rng: Rng, frames: seq<(real, Input.InputManager)>, k: nat)
    requires k <= |frames|
    ensures Progress(Play(rng, frames[..k]), Play(rng, frames))
  {
    if k < |frames| {
      var prefix := frames[..|frames| - 1];
      PlayProgress(rng, prefix, k);
      assert prefix[..k] == frames[..k];
    } else {
      assert frames[..k] == frames;
    }
  }
}
