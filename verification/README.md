# A verified model of a browser Tetris engine

This project models the deterministic game logic of a TypeScript Tetris clone
in Dafny and proves properties of it. The model has five modules. Each one
follows one source file:

- `Pieces` (`pieces.dfy`, from `src/game/Tetromino.ts`): the seven pieces,
  their 0/1 occupancy matrices and colours, the spawn position, and the
  clockwise and counter-clockwise matrix turns.
- `Playfield` (`playfield.dfy`, from `src/game/Board.ts`): the 20 by 10 grid
  of optional colours, the collision test `isValidPosition`, `lockTetromino`,
  and the `clearLines` compaction. The compaction scans from the bottom and
  rescans the same row index after each removal.
- `Sequencer` (`sequencer.dfy`, from `src/game/Bag.ts`): the 7-bag. It is a
  queue that is refilled with a Fisher-Yates shuffle of the seven types, and
  it offers `next` and `peek`.
- `Input` (`input.dfy`, from `src/core/Input.ts`): the key-to-action map
  (a JavaScript `Map`, modelled as its entry list in insertion order), the
  current and previous pressed state of each action, `isPressed` (held now
  but not at the previous tick) against `isDown` (held now), and `rebind`.
- `GameScene` (`gamescene.dfy`, from the non-drawing part of
  `src/scenes/GameScene.ts`): one frame of `update` covers input, gravity and
  the lock delay. It also models `handleInput`, `moveDown`, `lock`,
  `spawnTetromino`, `hold`, `updateScore`, `updateLevel`, and the ghost-row
  loop of `render`.

Everything is a value. The grid, the bag, the input manager and the game state
are immutable datatypes, and each mutating method of the source is a function
from the old state to the new one. `Options` (`options.dfy`) holds the
`Option` type that the modules share.

The main results:

- Rotation can be undone, and four turns in either direction give back the
  original matrix. A turn keeps the matrix square and keeps its number of
  occupied cells.
- `clearLines` returns the number of full rows. Afterwards the grid holds that
  many blank rows on top of the non-full rows, in their original order, and
  no row is full. Locking a piece into a grid with no full row creates at
  most as many full rows as the piece matrix has rows, so at most four rows
  clear at once and the points table is always indexed in range.
- Every refill of the bag is a permutation of the seven types, whatever the
  random draws are. The types dealt by `next`, cut into blocks of seven from
  the first one, have each type exactly once in every full block. `peek`
  does not break this.
- After `rebind(a, k)`, the key `k` maps to `a` and is the only key listed for
  `a`.
- Every frame keeps the game invariant `GameScene.Inv`. Score, lines and level
  never go down. A finished game does not change. A hard drop lands exactly
  on the ghost row. A fresh piece never collides when it spawns, so the
  spawn-collision game over never happens. The game can only end by lock-out
  or by a collision after a hold swap.

Two behaviours are modelled as the code has them:

- A rotation that needs a wall kick does not restart the lock timer.
- A hold swap keeps the held piece's rotation and only resets its position.

Two more points about the code are easy to miss:

- **Frames after game over.** `update` checks `isGameOver` only at the start
  of a frame (GameScene.ts:53-56). If a hard drop locks out, or a hold swap
  collides, partway through a frame, the rest of that frame still runs: hold,
  gravity and the lock delay. Only the later frames are frozen.
- **`rebind`.** `rebind(a, k)` unbinds every key that was bound to `a`
  (Input.ts:75-80), not only an old binding of `k`.

## Model

| member | source | states |
|---|---|---|
| Pieces.CatalogueWellShaped | src/game/Tetromino.ts:9-73 | Each catalogue entry has its own type. Its matrix is a square 0/1 matrix of size 2 to 4 with exactly four occupied cells, all in the top two rows. |
| Pieces.CatalogueCells | src/game/Tetromino.ts:9-73 | The occupied cells of each catalogue matrix are exactly the four cells of that shape. |
| Pieces.SpawnX | src/game/Tetromino.ts:89 | The spawn column is floor((10 - width) / 2): twice the column plus the width is 9 or 10. |
| Pieces.NewPiece | src/game/Tetromino.ts:82-91 | A new piece has the catalogue matrix and colour, row -2, and a centred column. All its cells are inside columns 0 to 9 and above the visible rows. |
| Pieces.RotateRight | src/game/Tetromino.ts:93-102 | The clockwise turn keeps the matrix N by N and moves cell (y, x) to (x, N-1-y). |
| Pieces.RotateLeft | src/game/Tetromino.ts:103-110 | The counter-clockwise turn keeps the matrix N by N and moves cell (y, x) to (N-1-x, y). |
| Pieces.Rotate | src/game/Tetromino.ts:93-111 | A turn in either direction keeps the matrix N by N. |
| Pieces.RotatePiece | src/game/Tetromino.ts:93-111 | Rotating a piece changes only its matrix. Type, column, row and colour stay the same. |
| Pieces.RotateInverse | src/game/Tetromino.ts:97-109 | Left then right, and right then left, give back the original matrix. |
| Pieces.OppositeUndoes | src/game/Tetromino.ts:93-111 | A turn followed by the opposite turn gives back the original matrix. The kick-revert path relies on this. |
| Pieces.HalfTurnRight | src/game/Tetromino.ts:97-102 | Two clockwise turns move cell (y, x) to (N-1-y, N-1-x). |
| Pieces.FourTurnsRight | src/game/Tetromino.ts:97-102 | Four clockwise turns give back the original matrix. |
| Pieces.FourTurnsLeft | src/game/Tetromino.ts:103-109 | Four counter-clockwise turns give back the original matrix. |
| Pieces.RotateKeepsCells | src/game/Tetromino.ts:94-110 | A turn keeps the number of occupied cells. |
| Pieces.RotateKeepsShaped | src/game/Tetromino.ts:93-111 | A turn of a square matrix of size 2 to 4 with four cells is again such a matrix. |
| Playfield.EmptyRow | src/game/Board.ts:57 | The row inserted at the top has ten empty cells and is not full. |
| Playfield.EmptyGrid | src/game/Board.ts:8-14 | The constructor and `reset` give 20 rows of 10 empty cells, with no full row. |
| Playfield.ScanRowMeaning | src/game/Board.ts:18-33 | The inner scan accepts exactly when every occupied cell of the row, from the given column on, is placeable. |
| Playfield.ScanRowsMeaning | src/game/Board.ts:17-35 | The outer scan accepts exactly when every occupied cell of the rows, from the given row on, is placeable. |
| Playfield.IsValidPosition | src/game/Board.ts:16-36 | The two nested scans of `isValidPosition`, written as recursion. It carries no contract of its own; its meaning is stated by `Playfield.ValidPositionMeaning`. |
| Playfield.ValidPositionMeaning | src/game/Board.ts:16-36 | `isValidPosition(p, dx, dy)` holds exactly when every occupied cell, shifted by (dx, dy), lands in a column in [0, 10) and a row below 20. If that row is on the field, the grid cell must also be empty. Cells above the field are checked only against the side walls. |
| Playfield.ValidShift | src/game/Board.ts:16-36 | Testing with an offset is the same as testing the piece moved by that offset. |
| Playfield.ValidBelowFloor | src/game/Board.ts:16-36 | If a piece with cells fits at offset dy, its top row plus dy is below 20. So the drop loops terminate. |
| Playfield.NewPieceValid | src/game/Board.ts:16-36 | A freshly made piece fits on any grid. |
| Playfield.LockRow | src/game/Board.ts:40-48 | The inner lock loop colours the occupied in-field cells of one matrix row, from the given column on, and nothing else. |
| Playfield.LockRows | src/game/Board.ts:39-49 | The outer lock loop colours the occupied in-field cells of the rows from the given row on, and nothing else. |
| Playfield.LockTetromino | src/game/Board.ts:38-50 | A grid cell takes the piece colour exactly when an occupied piece cell lands on it. Every other cell is unchanged and the grid keeps its shape. |
| Playfield.ClearScan | src/game/Board.ts:54-61 | Running the loop from row index y down to index 0 rewrites rows 0 to y as blank rows, one for each full row among them, followed by their non-full rows in order. The rows below y are untouched, and the count grows by the number of full rows. |
| Playfield.ClearLines | src/game/Board.ts:52-63 | Returns the number of full rows. The result is that many blank rows followed by the non-full rows in their original order. It is 20 by 10 with no full row. |
| Playfield.NonFullSize | src/game/Board.ts:52-63 | The number of kept rows plus the number of full rows is the number of rows. No kept row is full, and every kept row comes from the grid. |
| Playfield.ClearLinesWithoutFullRows | src/game/Board.ts:52-63 | On a grid with no full row, `clearLines` returns 0 and leaves the grid as it was. |
| Playfield.LockFillsAtMostHeight | src/game/Board.ts:38-50 | Locking a piece into a grid with no full row creates at most as many full rows as the piece matrix has rows. |
| Sequencer.Perm7EachOnce | src/game/Bag.ts:11 | Seven entries covering all seven types hold each type exactly once. |
| Sequencer.Swap | src/game/Bag.ts:15 | A swap keeps the length and the set of types. |
| Sequencer.Shuffle | src/game/Bag.ts:13-16 | After any number of shuffle iterations, whatever index in [0, i] each draw picks, the array is a permutation of the seven types. |
| Sequencer.Deal | src/game/Bag.ts:11-16 | A complete shuffle is a permutation of the seven types. |
| Sequencer.FillBag | src/game/Bag.ts:10-18 | A fill appends one complete shuffle to the queue. |
| Sequencer.NewBag | src/game/Bag.ts:6-8 | The constructor leaves a queue that is one permutation of the seven types. |
| Sequencer.Next | src/game/Bag.ts:20-26 | `next` refills only an empty queue, then removes the front type and returns a new piece of that type. |
| Sequencer.Peek | src/game/Bag.ts:28-33 | `peek` consumes nothing. It appends one fresh shuffle only when the queue is shorter than the count. It returns the prefix of length min(count, queue length), which is exactly count types when count is at most 7. |
| Sequencer.NewBagAligned | src/game/Bag.ts:6-8 | A new bag is a whole number of permutations of seven. |
| Sequencer.NextAligned | src/game/Bag.ts:20-26 | After `next`, the dealt types followed by the queue are still consecutive permutations of seven. |
| Sequencer.PeekAligned | src/game/Bag.ts:28-33 | `peek` keeps the dealt types followed by the queue as consecutive permutations of seven. |
| Sequencer.FillAheadDealsSame | src/game/Bag.ts:10-26 | Filling the bag early changes none of the types dealt later: each fill uses its own draws, whenever it runs. |
| Sequencer.PeekKeepsUpcoming | src/game/Bag.ts:28-33 | After a peek, the next n calls of `next` deal exactly the types they would have dealt without it. |
| Sequencer.DealtBlocksArePermutations | src/game/Bag.ts:6-26 | Cut into blocks of seven from the first piece, every full block of dealt types holds each type exactly once. |
| Input.Get | src/core/Input.ts:85-87 | `Map.get` finds nothing exactly when no entry has the key. A found action is the action of an entry for that key. |
| Input.Set | src/core/Input.ts:41-43 | `Map.set` binds the key to the action and keeps every other key's binding. The keys stay distinct. |
| Input.SetAppends | src/core/Input.ts:41-43 | Setting a new key appends its entry at the end of the map order. |
| Input.SetInPlace | src/core/Input.ts:41-43 | Setting a key that is already present rewrites its entry in place and leaves the other entries where they were. |
| Input.RemoveAction | src/core/Input.ts:75-80 | The delete loop of `rebind` removes exactly the keys bound to the action and keeps every other binding. The keys listed for any other action stay the same and in the same order. |
| Input.KeysFor | src/core/Input.ts:89-98 | The listing holds the displayed form of every key bound to the action, and nothing else. |
| Input.KeysForConcat | src/core/Input.ts:89-98 | Keys are listed in map order: listing two maps joined is the two listings joined. |
| Input.SetKeepsOtherListings | src/core/Input.ts:41-43 | Binding a key to one action leaves the keys listed for every other action, in order, unless the key itself was bound to that action. |
| Input.KeysForAfterSet | src/core/Input.ts:72-83 | Binding a key to an action that has no keys leaves that key as the only one listed. |
| Input.BindKey | src/core/Input.ts:41-43 | `bindKey` binds the key, keeps the other bindings, and does not touch the pressed state. |
| Input.BindAll | src/core/Input.ts:25-35 | The constructor's run of `bindKey` calls keeps the keys distinct and does not touch the pressed state. |
| Input.BindAllBinds | src/core/Input.ts:25-35 | Binding a list of distinct keys in turn leaves each key bound to its action from the list. |
| Input.NewInputManager | src/core/Input.ts:19-39 | After construction no action is held or pressed, and none counts as held at the previous tick. So the first press of any bound key registers as a press. |
| Input.NewInputManagerBindings | src/core/Input.ts:25-35 | After construction the map is exactly the eleven default bindings in the order they are made, so no other key is bound. Each default key is bound to its action. |
| Input.BindAllAppends | src/core/Input.ts:25-35 | Binding keys that are not yet in the map, one after another, appends them to the map in that order. |
| Input.GetEntry | src/core/Input.ts:85-87 | With distinct keys, looking up the key of any entry finds that entry's action. |
| Input.IsDown | src/core/Input.ts:64-66 | An action is held when its state is recorded as true. A missing entry counts as not held. This is a definition; `Input.OnKeyDown`, `Input.OnKeyUp` and `Input.Update` state how it changes. |
| Input.Display | src/core/Input.ts:94 | The space key is shown as "Space" and every other key as itself. This is a definition; `Input.GetKeysForAction` states the listing built from it. |
| Input.IsPressed | src/core/Input.ts:68-70 | An action is pressed exactly when it is held now and was not held at the previous tick. A press is always a hold. |
| Input.OnKeyDown | src/core/Input.ts:45-50 | An unbound key changes nothing. A bound key marks only its own action as held. |
| Input.OnKeyUp | src/core/Input.ts:52-57 | An unbound key changes nothing. A bound key marks only its own action as released. |
| Input.Update | src/core/Input.ts:59-62 | After `update` no action counts as pressed, the current state and the map are unchanged, and an action counts as held at the previous tick exactly when it was held before the call. So a key released before an `update` and pressed after it registers as a press. |
| Input.Rebind | src/core/Input.ts:72-83 | Afterwards the key maps to the action and is the only key listed for it. Any other key keeps its binding unless that binding was to the action. Every other action lists the same keys in the same order, unless the key was bound to it before. |
| Input.GetActionForKey | src/core/Input.ts:85-87 | A found action is one the map binds the key to. Nothing is found only for a key that is not in the map. |
| Input.GetKeysForAction | src/core/Input.ts:89-98 | The result lists the displayed key of every entry bound to the action, with " " shown as "Space", and nothing else. |
| GameScene.SpeedCurve | src/scenes/GameScene.ts:248 | Level 1 falls one row per second. Up to level 115 the interval stays in (0, 1]. |
| GameScene.SpeedCurveFaster | src/scenes/GameScene.ts:248 | Each level up to 115 falls strictly faster than the level before. |
| GameScene.UpdateLevel | src/scenes/GameScene.ts:244-249 | The level is the one whose ten-line band contains the cleared lines. The interval follows the speed curve and nothing else changes. |
| GameScene.UpdateScore | src/scenes/GameScene.ts:234-242 | Clearing no row changes nothing. Otherwise the score grows by the base points times the level before the update, the lines add up, and the level and interval are recomputed. Nothing else changes. |
| GameScene.SpawnTetromino | src/scenes/GameScene.ts:196-206 | The next piece of the bag becomes live, hold is allowed again and the lock timer restarts. The new piece always fits, so spawning never ends the game. |
| GameScene.RowLocksOut | src/scenes/GameScene.ts:173-179 | The inner lock-out loop finds an occupied cell above the field in the row, from the given column on. |
| GameScene.LockOutFrom | src/scenes/GameScene.ts:172-180 | The outer lock-out loop finds an occupied cell above the field in the rows from the given row on. |
| GameScene.IsLockOut | src/scenes/GameScene.ts:171-180 | A piece locks out exactly when one of its occupied cells is above the visible field. |
| GameScene.Lock | src/scenes/GameScene.ts:164-194 | Lock-out ends the game and leaves everything else as it was. Otherwise the next piece is dealt, hold is allowed again, the lock timer restarts, and at most four lines are added. The held piece, the drop timer and the game-over flag stay as they were. The drop interval stays when no line clears and otherwise follows the speed curve at the new level. The invariant holds afterwards. |
| GameScene.LockClears | src/scenes/GameScene.ts:188-193 | Without lock-out, the grid becomes the cleared grid with the piece written in. The cleared count, at most four, is added to the lines, and its base points times the level are added to the score. |
| GameScene.Hold | src/scenes/GameScene.ts:208-232 | Hold is a no-op once used for this piece. The first hold parks the piece and deals the next one, which restarts the lock timer; nothing else changes. Later holds swap in the parked piece in its parked rotation and colour, at the centred spawn column and row -2, and keep the lock timer. The game ends exactly when that placement collides, and nothing else changes. Afterwards hold is not allowed. |
| GameScene.HoldOncePerPiece | src/scenes/GameScene.ts:208-232 | A second hold straight after a hold changes nothing. |
| GameScene.HardDropLoop | src/scenes/GameScene.ts:141-144 | The drop loop ends some number of rows lower. Every row on the way was free and the next row is not. |
| GameScene.GhostOffset | src/scenes/GameScene.ts:301-304 | The ghost loop ends where every row on the way was free and the next row is not. |
| GameScene.HardDropLandsOnGhost | src/scenes/GameScene.ts:140-146 | The hard drop ends on the ghost row and falls exactly the ghost's number of rows. |
| GameScene.AtGhost | src/scenes/GameScene.ts:141-144 | Moving the piece down to its ghost row and scoring the drop keeps the invariant and loses no score, lines or level. The piece ends on the ghost row, and only its row changes. The score grows by two points per row descended, and nothing else in the game changes. |
| GameScene.HardDropAtGhost | src/scenes/GameScene.ts:140-146 | A hard drop is a lock at the ghost row after two points per row fallen. |
| GameScene.HardDrop | src/scenes/GameScene.ts:140-146 | A hard drop keeps the invariant and loses no score, lines or level. |
| GameScene.MoveDown | src/scenes/GameScene.ts:154-162 | The piece moves down one row exactly when that row is free. Otherwise nothing changes. |
| GameScene.Shift | src/scenes/GameScene.ts:94-105 | The piece moves at most one column. It moves left exactly when left is pressed and that place is free. It moves right exactly when left is not pressed, right is pressed and that place is free. A move restarts the lock timer. Without a move the state is unchanged, and nothing else changes in any case. |
| GameScene.Turn | src/scenes/GameScene.ts:110-130 | The turned piece is kept in place if it fits, otherwise one column right, otherwise one column left. If none fits, the state is unchanged. Only an unkicked turn restarts the lock timer. |
| GameScene.ApplySoftDrop | src/scenes/GameScene.ts:132-137 | While soft drop is held the interval is 0.05 s. Otherwise it is the speed curve of the level. Nothing else changes. |
| GameScene.HandleInput | src/scenes/GameScene.ts:91-152 | Input handling keeps the invariant and loses no score, lines or level. |
| GameScene.Gravity | src/scenes/GameScene.ts:73-77 | When the drop timer reaches the interval, it restarts and the piece moves down if that row is free; nothing else changes. Otherwise only the timer grows. The board, score and game-over flag never change. |
| GameScene.Settle | src/scenes/GameScene.ts:79-88 | A piece that can still fall has its lock timer reset. A resting piece accumulates time below 0.5 s. Once the timer reaches 0.5 s the piece is locked, exactly as `lock` does with the updated timer, so the next piece is live or the game is over. |
| GameScene.Update | src/scenes/GameScene.ts:52-89 | A frame keeps the invariant and loses no score, lines or level. A finished game and a pause press leave the state unchanged. |
| GameScene.NewGame | src/scenes/GameScene.ts:36-46 | A new game has an empty grid, score 0, lines 0, level 1, a one-second interval, no held piece, the first piece of the bag, and drop and lock timers at 0. It satisfies the invariant. |
| GameScene.Play | src/scenes/GameScene.ts:52-89 | Every state reached by any sequence of frames from a new game satisfies the invariant. |
| GameScene.PlayProgress | src/scenes/GameScene.ts:52-89 | Along any play, score, lines and level never decrease, and a finished game stays finished. |

## Left out

- Drawing: `render`, `drawTetromino`, `drawPreviewTetromino`, `drawBlock` and the renderer. This is presentation. Only the ghost loop of `render` is modelled (`GameScene.GhostOffset`).
- The `peek(3)` preview that `render` calls every frame. The game model never peeks. A peek may only refill the bag earlier than `next` would; `Sequencer.PeekKeepsUpcoming` shows that this changes none of the types dealt afterwards.
- Scene changes (`changeScene` to the title or game-over scene). Game over is the `isGameOver` flag. A pause press leaves the state unchanged, because the scene itself is replaced.
- `isPaused`: nothing ever sets it, so its check in `update` is dropped.
- `Math.random` in `fillBag`: the bag takes an injected stream of draws, one set of six indices per fill, where the k-th index is at most 6 - k. The permutation results hold for every stream.
- Floating point: timers, frame deltas, the 0.05 s soft-drop interval and the `Math.pow` speed curve are exact `real`s. Nothing is claimed about agreement with IEEE doubles.
- Score and lines are unbounded integers. JavaScript numbers lose precision above 2^53.
- The early returns when there is no current piece, and the same null test in the lock-delay branch: after the first deal a live piece always exists (`GameScene.Inv`), so the model reads it directly.
- Window listener registration and `KeyboardEvent`: key events are calls that take the key string.
- The deep copy in the `Tetromino` constructor: all values are immutable, so a rotation can never change the catalogue.
- `console.log` calls.
- GameScene.SpeedCurve: bounds the interval only up to level 115. From level 116 the base 0.8 - (level - 1) * 0.007 is negative, and the model states nothing there.
- Input.Rebind: if the key was bound to another action before, that action's listing afterwards is described only by `Input.GetKeysForAction`'s membership clauses, not as an exact sequence.
- GameScene.UpdateScore: requires at most four cleared rows. The table has no entry for more. `Lock` proves that the bound always holds.
- GameScene.Update: requires the invariant `Inv`. `GameScene.Play` shows that every state reached from a new game satisfies it.
- GameScene.HandleInput: states only the invariant and progress. Its steps have their own contracts.
- GameScene.HardDrop: states only the invariant and progress. Its full effect is `GameScene.HardDropAtGhost` (a lock of `GameScene.AtGhost`) together with the contracts of `AtGhost` and `Lock`.
