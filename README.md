# Falling-block game engine, modelled in Dafny

This project models the game-state engine of a browser falling-block puzzle
(`tetris.js`). The engine has a fixed grid of landed squares, a catalog of
eight piece shapes, and a single falling block. The player moves and rotates
the block under collision rules. On every timer tick the block drops one row
or lands. Landing merges the block into the grid, checks for game over,
clears complete rows and spawns a new block.

The project has three modules, one per layer of the source:

- `Shapes` (`shapes.dfy`): the mask type and the rotate transform (`_.zip`
  transpose, then row reversal). It also holds the shape catalog, the
  points-per-line table, and the proofs that a quarter turn swaps width and
  height, keeps a mask tight, and returns the original mask after four turns.
- `Grid` (`grid.dfy`): the grid as a value. It defines the collision scan of
  `shapeFits` with its row-major order and early return, the two bounds
  checks, what a merge does, which rows are complete, and what clearing them
  leaves. Each of these comes with the lemmas that characterise it.
- `Board` (`board.dfy`): the objects whose fields the source updates in
  place. `GridView` owns the grid (`clearGrid`, `updateGrid`). `Block` has a
  mask, a position and a derived width and height. `BoardView` has the move,
  rotate, descend, landing, pause and key methods. Each method is proved
  against the `Grid` and `Shapes` functions and keeps the board invariant
  `Valid()`: the grid keeps its dimensions, and the block is tight and inside
  the grid (`0 <= x`, `x + width <= grid width`, `0 <= y`,
  `y + height <= grid height`), and no timer runs while the game is paused.

Cells are booleans: `true` where the source stores 1, `false` where it
stores 0. Row 0 is the top row.

Source behaviour the model keeps as written:

- The object literal of `BoardView` declares `gameOver` twice. The method
  (tetris.js:199) overwrites the flag (tetris.js:73), so no game-over state
  exists. Game over only removes the descent timer. The rest of the landing
  sequence still runs, and keys are still handled. `BoardView.ticking`
  records whether the timer is installed. Pausing clears the timer and
  unpausing installs a new one, so pausing twice after a game over restarts
  the descent.
- `shapeFits` reads `app.grid[checkY][checkX]`. A column outside a row reads
  `undefined`, which counts as free. A row outside the grid throws. The model
  returns `Probe.Fault` for the throw, in the scan order the loops use, so a
  collision met earlier in the scan wins over a missing row met later.
- `rotatedShapeFits` runs `shapeFits` before `shapeWithinBounds`, and
  `shapeWithinBounds` never looks at the row. A turned mask that reaches
  below the grid therefore faults instead of being rejected, unless a
  taken cell comes first in the scan, which gives a plain failure. `Rotate`
  returns that outcome and leaves the block unchanged, as the uncaught
  exception does.
- The game-over test is the landed block's `y <= 0`. It is made before the
  rows are cleared. No spawn-collision check exists.
- `clearCompleteRows` walks the complete rows top to bottom. Each splice is
  followed by an unshift, so every later index still names its row
  (`Grid.ClearStep`).

Further facts about the code that the model keeps:

- `shapeWithinBounds` never tests `y`.
- `shapeFits` does not test the left and right edges. A column off a row
  reads as free.
- Game over only stops the timer. There is no terminal game-over state.
- No collision check happens when a new block spawns.
- Complete rows are cleared top-down, in ascending index order.

## Model

| member | source | states |
|---|---|---|
| `Board.Block.constructor` | tetris.js:5-14 | A new block sits at x = 0, y = 0 and carries the given mask, with width the length of its first row and height its number of rows. |
| `Board.GridView.ClearGrid` | tetris.js:405-414 | The grid becomes exactly `height` rows of `width` cells, all empty. |
| `Board.ZeroRow` | tetris.js:244-246 | The push loop builds a row of exactly `width` cells, all empty. |
| `Board.GridView.UpdateGrid` | tetris.js:374-387 | The new grid is the old one with every square of the block set; the grid keeps its dimensions. |
| `Grid.MergedCells` | tetris.js:374-387 | A merge sets every grid cell under a square of the mask and leaves every other cell as it was. |
| `Grid.MergedShaped` | tetris.js:374-387 | A merge keeps the grid's row count and row widths. |
| `Grid.MergedBlocksItself` | tetris.js:374-387 | Once a block whose squares are all on the grid is merged, the same block at the same place fails the collision test. |
| `Board.BoardView.UpdateGrid` | tetris.js:183-188 | Merges the board's one block into the grid at its position. |
| `Grid.CompleteRows` | tetris.js:217-230 | The result is strictly ascending, every entry is a row index, and a row index is listed exactly when every cell of that row is set. |
| `Grid.FindCompleteRows` | tetris.js:217-230 | The nested scan of `checkCompleteRows`, which never stops early, returns exactly `CompleteRows` of the grid. |
| `Grid.CompleteRowsBlank` | tetris.js:217-230 | A blank grid with at least one column has no complete row. |
| `Grid.CompleteRowsAll` | tetris.js:217-230 | In a grid of complete rows every index is listed, 0 to height - 1 in order. |
| `Grid.NoCompleteRows` | tetris.js:217-230 | When no row is complete the list is empty. |
| `Board.BoardView.CheckCompleteRows` | tetris.js:217-236 | Returns the complete rows of the grid; the grid becomes the cleared grid, and stays as it was when no row is complete. |
| `Grid.SurvivorsAt` | tetris.js:241-249 | Each unlisted row survives at the position just after the survivors of the rows above it, so survivors keep their original relative order. |
| `Grid.SurvivorsOnly` | tetris.js:241-249 | Each position of the survivors holds exactly one unlisted row, the one with that many survivors above it; nothing else survives. |
| `Grid.SurvivorsFrom` | tetris.js:241-249 | Every surviving row is a row of the old grid whose index was not listed. |
| `Grid.SurvivorsKeep` | tetris.js:241-249 | Every row whose index was not listed survives. |
| `Grid.SurvivorsLength` | tetris.js:241-249 | Removing k distinct listed rows leaves exactly the row count minus k. |
| `Grid.ClearStep` | tetris.js:241-249 | With the rows processed in ascending order, each listed row is still at its own index when it is spliced out, and splice-then-unshift moves from one prefix of the list to the next. |
| `Grid.ClearedShaped` | tetris.js:239-251 | Clearing distinct existing rows keeps the row count and the row width. |
| `Grid.ClearedNone` | tetris.js:231-235 | Clearing an empty list changes nothing. |
| `Grid.ClearedHasNoCompleteRow` | tetris.js:217-251 | After the complete rows are cleared (width > 0), no row is complete. |
| `Board.BoardView.ClearCompleteRows` | tetris.js:239-251 | The splice/unshift loop turns the grid into `Cleared(old grid, rows, app.width)`, keeping its dimensions. |
| `Grid.Scan` | tetris.js:334-348 | The row-major scan from mask cell (i, j) passes exactly when every later cell fits. A Fault names a later square on a missing row; a Fail names a later square on a taken cell. |
| `Grid.ShapeFits` | tetris.js:334-348 | Pass exactly when every square of the mask lands on an existing row and a free cell. A Fault names a square off the rows; a Fail names a square on a taken cell. |
| `Grid.FitsBlank` | tetris.js:334-348 | On a blank grid every placement whose squares are all on existing rows passes. |
| `Grid.FitsWithinRows` | tetris.js:334-348 | A tight mask that passes lies between the top and the bottom of the grid. |
| `Grid.ShapeWithinBoundsCells` | tetris.js:302-310 | The bounds check passes exactly when every column of the rectangular mask, placed at x, lands on a column of the board; the row is never looked at. |
| `Grid.RotatedShapeFits` | tetris.js:313-315 | Pass exactly when the mask fits and is within the side bounds; it faults exactly when the collision scan faults, whatever the bounds. |
| `Shapes.TransposeTwice` | tetris.js:321 | `_.zip` of a rectangular mask gives a rectangular mask, and applying it twice gives back the mask. |
| `Shapes.ReverseTwice` | tetris.js:322 | Reversing the row order twice gives back the original order. |
| `Shapes.Rotated` | tetris.js:321-322 | The turned mask is rectangular, its height is the old width and its width the old height, and new cell (i, j) is old cell (j, width - 1 - i). |
| `Shapes.HalfTurn` | tetris.js:321-322 | Two turns send every cell to its point reflection and keep the dimensions. |
| `Shapes.FullTurn` | tetris.js:321-322 | Four turns give back the original rectangular mask. |
| `Shapes.RotatedTight` | tetris.js:321-327 | A turn keeps every row and every column holding a square. |
| `Board.BoardView.Rotate` | tetris.js:318-331 | The outcome is `rotatedShapeFits` of the turned mask at the block's place. On Pass the block takes the turned mask and its width and height swap. On Fail or Fault the block is unchanged. The position never changes. |
| `Board.BoardView.MoveLeft` | tetris.js:254-263 | x becomes x - 1 exactly when x > 0 and the mask fits there, otherwise x stays; y, mask, width and height never change. |
| `Board.BoardView.MoveRight` | tetris.js:266-275 | x becomes x + 1 exactly when x + width < grid width and the mask fits there, otherwise x stays; nothing else changes. |
| `Board.BoardView.MoveDown` | tetris.js:278-287 | y becomes y + 1 exactly when y + height < grid height and the mask fits there, otherwise y stays; nothing else changes. |
| `Board.BoardView.Descend` | tetris.js:290-299 | When the block can drop, y grows by exactly 1 and nothing else changes. Otherwise the block lands: the grid becomes the merged grid with its complete rows cleared, game over is signalled exactly when the landed y <= 0, the timer then stops, and a new block of the chosen catalog shape is at (0, 0). |
| `Board.BoardView.BlockLanded` | tetris.js:115-121 | Merge, game-over check, row clear and spawn, in that order, with the resulting grid, timer and block as in `Descend`. |
| `Board.BoardView.CheckGameOver` | tetris.js:190-195 | Game over exactly when the landed block's y <= 0, and then the timer is removed; nothing else changes. |
| `Board.BoardView.GameOver` | tetris.js:199-205 | Only the timer is removed; block, grid and pause state stay. |
| `Board.BoardView.SpawnNewBlock` | tetris.js:124-132 | The block is replaced by a fresh one with the chosen catalog shape at (0, 0), and the board invariant holds. |
| `Board.BoardView.Pause` | tetris.js:157-170 | `paused` flips; the timer is installed exactly when the game is not paused afterwards. |
| `Board.BoardView.KeyAction` | tetris.js:135-154 | While paused, the move and rotate keys leave the block untouched. The pause key flips `paused` and sets the timer accordingly. Other keys change nothing. No key touches the grid or replaces the block. |
| `Board.BoardView.Tick` | tetris.js:95-102 | With the timer installed a tick is a descent, with Descend's full post-state: a drop by one row when the block can drop, otherwise the merge, clear and spawn with game over at y <= 0. Without the timer, and so always while paused, it is Idle and nothing changes. |
| `Board.BoardView.constructor` | tetris.js:76-92 | A blank grid of the given size, a first block of the chosen catalog shape at (0, 0), not paused, timer running, board invariant established. |
| `Shapes.CatalogShapes` | tetris.js:476-520 | Every catalog shape is tight and at most 4 wide and 4 tall. |
| `Shapes.PointsPerLine` | tetris.js:469-474 | A value exists exactly for 1 to 4 cleared rows. |
| `Shapes.PointsRewardMultiples` | tetris.js:469-474 | More rows cleared at once earn more in total and more per row. |

## Left out

- Canvas drawing (`BlockView`, `GridView.drawGrid`, `BoardView.render`): pixel output through the 2D context.
- `GridView.logGrid`: an HTML dump written to the page.
- Sound (`playAudio`, `jsfxr`, `app.sounds`), the mute key and `mute`: foreign calls and floating-point sound data. A successful move returns `true`, which is where the source plays its move sound.
- The timer's scheduling (`setInterval` every 800 ms, `clearInterval`): reduced to the flag `ticking` and to `Tick` as one callback. The redraw after each tick is not modelled.
- jQuery messages and button labels, `ControlsView`, the layout in `BoardView.initialize` and `app.boot`, and Backbone event wiring: presentation glue.
- `_.random`: the spawned shape's catalog index is a parameter of `Descend`, `BlockLanded`, `SpawnNewBlock`, `Tick` and the constructor.
- Board.BoardView.constructor: requires a grid at least 4 wide and 4 tall. The source's size comes from the canvas, which is not part of this model. On a smaller grid a spawned shape would stick out, and `updateGrid` would grow rows beyond `app.width`. The model does not capture that. It also takes width and height as whole numbers, whereas the source divides canvas pixels by 20.
- Board.GridView.UpdateGrid: requires every square of the block to be on the grid. All callers ensure this through the board invariant. The source's behaviour on squares off the grid (a throw for a missing row, a longer row for a column past the end) is not modelled.
- Shapes.Rotated: defined for rectangular masks only. `_.zip` pads ragged masks with `undefined`, but every catalog shape is rectangular and rotation keeps it so.
- Board.BoardView.KeyAction: states the pause gating only. What each arrow key does is stated by `MoveLeft`, `MoveRight`, `MoveDown` and `Rotate`, which it calls unchanged.
- The Backbone collection: it always holds exactly one block, so it is modelled as the field `BoardView.block`, and `clearCollection` followed by `spawnNewBlock` is one replacement.
- The points table is only a lookup. The source computes no score from it, and neither does the model.
