/** The game objects: the grid view that owns the grid of landed squares,
    the falling block, and the board view that moves, rotates and lands the
    block.  Drawing, sound and the page's messages are not modelled; the
    descent timer is reduced to a flag saying whether it is installed. */
module Board {
  import opened Shapes
  import opened Grid

  /** What one call of `descend` did: the block dropped a row, or it landed
      (with whether game over was signalled and which rows were cleared).
      Idle is a timer tick while no timer is installed. */
  datatype Step = Stepped | Landed(toppedOut: bool, cleared: seq<int>) | Idle

  // Key codes `keyAction` dispatches on.
  const KeyLeft := 37
  const KeyRotate := 38
  const KeyRight := 39
  const KeyDown := 40
  const KeyPause := 80

  /** The inner loop of `clearGrid` and `clearCompleteRows`: a new row of
      `width` zeros, pushed one by one. */
  method ZeroRow(width: nat) returns (row: seq<bool>)
    ensures row == BlankRow(width)
  {
    row := [];
    var x := 0;
    while x < width
      invariant 0 <= x <= width
      invariant row == BlankRow(x)
    {
      row := row + [false];
      x := x + 1;
    }
  }

  /** `app.GridView` with the shared `app.grid`, `app.width` and
      `app.height` it works on. */
  class GridView {
    const width: nat
    const height: nat
    var grid: Grid

    ghost predicate Valid()
      reads this
    {
      width > 0 && height > 0 && Shaped(grid, width, height)
    }

    /** The grid does not exist until `clearGrid` builds it. */
    constructor (width: nat, height: nat)
      ensures this.width == width && this.height == height && grid == []
    {
      this.width := width;
      this.height := height;
      grid := [];
    }

    /** `clearGrid`: `height` rows of `width` zeros, built row by row. */
    method ClearGrid()
      modifies this
      ensures grid == BlankRows(height, width)
    {
      grid := [];
      var y := 0;
      while y < height
        invariant 0 <= y <= height
        invariant grid == BlankRows(y, width)
      {
        var row := ZeroRow(width);
        grid := grid + [row];
        y := y + 1;
      }
    }

    /** `updateGrid(model)`: writes 1 into the grid under every square of the
        block.  The caller guarantees every square is on the grid (an
        out-of-range row would throw, an out-of-range column would grow the
        row). */
    method UpdateGrid(block: Block)
      requires Valid()
      requires forall a, b :: Filled(block.shape, a, b) ==>
        0 <= block.y + a < height && 0 <= block.x + b < width
      modifies this
      ensures Valid()
      ensures grid == Merged(old(grid), block.shape, block.x, block.y)
    {
      var shape, x, y := block.shape, block.x, block.y;
      var shapeY := 0;
      while shapeY < |shape|
        invariant 0 <= shapeY <= |shape|
        invariant Shaped(grid, width, height)
        invariant forall r, c :: 0 <= r < height && 0 <= c < width ==>
          grid[r][c] == (old(grid)[r][c] || Stamped(shape, r - y, c - x, shapeY, 0))
      {
        var row := shape[shapeY];
        var shapeX := 0;
        while shapeX < |row|
          invariant 0 <= shapeX <= |row|
          invariant Shaped(grid, width, height)
          invariant forall r, c :: 0 <= r < height && 0 <= c < width ==>
            grid[r][c] == (old(grid)[r][c] || Stamped(shape, r - y, c - x, shapeY, shapeX))
        {
          if row[shapeX] {
            assert Filled(shape, shapeY, shapeX);
            grid := grid[y + shapeY := grid[y + shapeY][x + shapeX := true]];
          }
          shapeX := shapeX + 1;
        }
        shapeY := shapeY + 1;
      }
      ghost var merged := Merged(old(grid), shape, x, y);
      forall r | 0 <= r < height ensures grid[r] == merged[r] {
        assert |grid[r]| == |merged[r]|;
      }
    }
  }

  /** Square (a, b) of the mask was written by the nested loops of
      `updateGrid` once they reached row i, cell j. */
  predicate Stamped(m: Mask, a: int, b: int, i: int, j: int) {
    Filled(m, a, b) && (a < i || (a == i && b < j))
  }

  /** `app.Block`: a shape mask, its position on the grid, and the width and
      height derived from the mask. */
  class Block {
    var shape: Mask
    var x: int
    var y: int
    var width: int
    var height: int

    ghost predicate Valid()
      reads this
    {
      |shape| > 0 && width == |shape[0]| && height == |shape|
    }

    /** `initialize`, with the model's defaults x = 0, y = 0. */
    constructor (shape: Mask)
      requires |shape| > 0
      ensures Valid()
      ensures this.shape == shape && x == 0 && y == 0
    {
      this.shape := shape;
      x := 0;
      y := 0;
      width := |shape[0]|;
      height := |shape|;
    }
  }

  /** `app.BoardView`: the game.  Its collection always holds exactly one
      block, modelled as the field `block`.  `ticking` says whether the
      descent timer (`app.interval`) is installed.  There is no game-over
      flag: the object literal's `gameOver: false` is overwritten by the
      method of the same name. */
  class BoardView {
    const gridView: GridView
    var block: Block
    var paused: bool
    var ticking: bool

    /** The grid has its dimensions, the block is tight and lies inside the
        grid, the grid is large enough to spawn every catalog shape, and no
        timer runs while the game is paused. */
    ghost predicate Valid()
      reads this, gridView, block
    {
      && gridView.Valid() && block.Valid()
      && Tight(block.shape)
      && CatalogWidth <= gridView.width && CatalogHeight <= gridView.height
      && 0 <= block.x && block.x + block.width <= gridView.width
      && 0 <= block.y && block.y + block.height <= gridView.height
      && (paused ==> !ticking)
    }

    /** `initialize`: a blank grid, a first block drawn from the catalog at
        index `first`, not paused, and the timer started. */
    constructor (width: nat, height: nat, first: nat)
      requires CatalogWidth <= width && CatalogHeight <= height
      requires first < |Catalog|
      ensures Valid()
      ensures fresh(gridView) && fresh(block)
      ensures gridView.width == width && gridView.height == height
      ensures gridView.grid == BlankRows(height, width)
      ensures block.shape == Catalog[first] && block.x == 0 && block.y == 0
      ensures !paused && ticking
    {
      var view := new GridView(width, height);
      view.ClearGrid();
      CatalogShapes(first);
      gridView := view;
      block := new Block(Catalog[first]);
      paused := false;
      ticking := true;
    }

    /** The block can drop one row: its bottom edge is above the grid's and
        it fits one row down. */
    ghost predicate CanDrop()
      reads this, gridView, block
    {
      block.y + block.height < gridView.height
      && Fits(gridView.grid, block.shape, block.x, block.y + 1)
    }

    /** `moveLeft`: one column left when the block is off the left edge and
        fits there; otherwise nothing changes. */
    method MoveLeft() returns (moved: bool)
      requires Valid()
      modifies block
      ensures Valid()
      ensures moved <==> old(block.x) > 0 && Fits(gridView.grid, block.shape, old(block.x) - 1, block.y)
      ensures block.x == if moved then old(block.x) - 1 else old(block.x)
      ensures block.y == old(block.y) && block.shape == old(block.shape)
      ensures block.width == old(block.width) && block.height == old(block.height)
    {
      var newX := block.x - 1;
      if block.x > 0 && ShapeFits(gridView.grid, block.shape, newX, block.y) == Pass {
        block.x := newX;
        moved := true;
      } else {
        moved := false;
      }
    }

    /** `moveRight`: one column right when the block's right edge is short of
        the grid's and it fits there; otherwise nothing changes. */
    method MoveRight() returns (moved: bool)
      requires Valid()
      modifies block
      ensures Valid()
      ensures moved <==> old(block.x + block.width) < gridView.width
                         && Fits(gridView.grid, block.shape, old(block.x) + 1, block.y)
      ensures block.x == if moved then old(block.x) + 1 else old(block.x)
      ensures block.y == old(block.y) && block.shape == old(block.shape)
      ensures block.width == old(block.width) && block.height == old(block.height)
    {
      var newX := block.x + 1;
      if block.x + block.width < gridView.width && ShapeFits(gridView.grid, block.shape, newX, block.y) == Pass {
        block.x := newX;
        moved := true;
      } else {
        moved := false;
      }
    }

    /** `moveDown`: one row down when the block's bottom edge is above the
        grid's and it fits there; otherwise nothing changes (a blocked
        `moveDown` does not land the block). */
    method MoveDown() returns (moved: bool)
      requires Valid()
      modifies block
      ensures Valid()
      ensures moved <==> old(CanDrop())
      ensures block.y == if moved then old(block.y) + 1 else old(block.y)
      ensures block.x == old(block.x) && block.shape == old(block.shape)
      ensures block.width == old(block.width) && block.height == old(block.height)
    {
      var newY := block.y + 1;
      if block.y + block.height < gridView.height && ShapeFits(gridView.grid, block.shape, block.x, newY) == Pass {
        block.y := newY;
        moved := true;
      } else {
        moved := false;
      }
    }

    /** `rotate`: the turned mask replaces the block's when
        `rotatedShapeFits` accepts it, and width and height are read again
        from it.  A turned mask that reaches below the grid makes the
        collision scan throw (Fault): the block then stays as it was, as it
        does on a plain rejection (Fail). */
    method Rotate() returns (outcome: Probe)
      requires Valid()
      modifies block
      ensures Valid()
      ensures outcome == RotatedShapeFits(gridView.grid, gridView.width, Rotated(old(block.shape)), block.x, block.y)
      ensures outcome == Pass ==>
        block.shape == Rotated(old(block.shape)) && block.width == old(block.height) && block.height == old(block.width)
      ensures outcome != Pass ==>
        block.shape == old(block.shape) && block.width == old(block.width) && block.height == old(block.height)
      ensures block.x == old(block.x) && block.y == old(block.y)
    {
      var transposed := Transpose(block.shape);
      var reversed := Reverse(transposed);
      assert reversed == Rotated(block.shape);
      outcome := RotatedShapeFits(gridView.grid, gridView.width, reversed, block.x, block.y);
      if outcome == Pass {
        RotatedTight(block.shape);
        FitsWithinRows(gridView.grid, reversed, block.x, block.y);
        block.shape := reversed;
        block.width := |reversed[0]|;
        block.height := |reversed|;
      }
    }

    /** `descend`, one timer tick: the block drops a row when it can, and
        lands otherwise.  Landing merges the block into the grid, signals
        game over when the block's row was 0 or above (which only stops the
        timer), clears the complete rows of the merged grid and replaces the
        block by catalog shape `spawn` at the top-left corner. */
    method Descend(spawn: nat) returns (t: Step)
      requires Valid() && spawn < |Catalog|
      modifies this, block, gridView
      ensures Valid()
      ensures paused == old(paused)
      ensures old(CanDrop()) ==>
        && t == Stepped
        && block == old(block) && block.y == old(block.y) + 1
        && block.x == old(block.x) && block.shape == old(block.shape)
        && block.width == old(block.width) && block.height == old(block.height)
        && gridView.grid == old(gridView.grid) && ticking == old(ticking)
      ensures !old(CanDrop()) ==>
        var merged := Merged(old(gridView.grid), old(block.shape), old(block.x), old(block.y));
        && t == Landed(old(block.y) <= 0, CompleteRows(merged))
        && gridView.grid == Cleared(merged, CompleteRows(merged), gridView.width)
        && fresh(block) && block.shape == Catalog[spawn] && block.x == 0 && block.y == 0
        && ticking == (old(ticking) && old(block.y) > 0)
    {
      if block.y + block.height < gridView.height && ShapeFits(gridView.grid, block.shape, block.x, block.y + 1) == Pass {
        block.y := block.y + 1;
        t := Stepped;
      } else {
        t := BlockLanded(spawn);
      }
    }

    /** `blockLanded`: merge, game-over check, row check and clear, then a
        new block.  The landed block's row decides game over. */
    method BlockLanded(spawn: nat) returns (t: Step)
      requires Valid() && spawn < |Catalog|
      modifies this, block, gridView
      ensures Valid()
      ensures paused == old(paused)
      ensures var merged := Merged(old(gridView.grid), old(block.shape), old(block.x), old(block.y));
        && t == Landed(old(block.y) <= 0, CompleteRows(merged))
        && gridView.grid == Cleared(merged, CompleteRows(merged), gridView.width)
        && fresh(block) && block.shape == Catalog[spawn] && block.x == 0 && block.y == 0
        && ticking == (old(ticking) && old(block.y) > 0)
    {
      UpdateGrid();
      var over := CheckGameOver(block);
      var rows := CheckCompleteRows();
      SpawnNewBlock(spawn);
      t := Landed(over, rows);
    }

    /** `updateGrid`: merge the collection's block into the grid. */
    method UpdateGrid()
      requires Valid()
      modifies gridView
      ensures Valid()
      ensures gridView.grid == Merged(old(gridView.grid), block.shape, block.x, block.y)
    {
      gridView.UpdateGrid(block);
    }

    /** `checkGameOver(block)`: game over when the block's row is 0 or
        above. */
    method CheckGameOver(landed: Block) returns (over: bool)
      requires Valid()
      modifies this
      ensures Valid() && block == old(block) && paused == old(paused)
      ensures over <==> landed.y <= 0
      ensures ticking == (old(ticking) && !over)
    {
      over := landed.y <= 0;
      if over {
        GameOver();
      }
    }

    /** `gameOver`: stops the timer.  Nothing else of the game changes, and
        key input is still handled afterwards. */
    method GameOver()
      requires Valid()
      modifies this
      ensures Valid() && block == old(block) && paused == old(paused)
      ensures !ticking
    {
      ticking := false;
    }

    /** `checkCompleteRows`: find the complete rows and, if there are any,
        clear them. */
    method CheckCompleteRows() returns (rows: seq<int>)
      requires Valid()
      modifies gridView
      ensures Valid()
      ensures rows == CompleteRows(old(gridView.grid))
      ensures gridView.grid == Cleared(old(gridView.grid), rows, gridView.width)
      ensures rows == [] ==> gridView.grid == old(gridView.grid)
    {
      rows := FindCompleteRows(gridView.grid);
      if |rows| > 0 {
        ClearCompleteRows(rows);
      } else {
        ClearedNone(gridView.grid, gridView.width);
      }
    }

    /** `clearCompleteRows(completeRows)`: for each listed row, top to
        bottom, splice it out and unshift a new row of `app.width` zeros. */
    method ClearCompleteRows(rows: seq<int>)
      requires Valid()
      requires Ascending(rows)
      requires forall k :: 0 <= k < |rows| ==> 0 <= rows[k] < gridView.height
      modifies gridView
      ensures Valid()
      ensures gridView.grid == Cleared(old(gridView.grid), rows, gridView.width)
    {
      var grid := gridView.grid;
      var width := gridView.width;
      var i := 0;
      ClearedNone(grid, width);
      assert rows[..0] == [];
      while i < |rows|
        invariant 0 <= i <= |rows|
        invariant grid == Cleared(old(gridView.grid), rows[..i], width)
      {
        var rowIndex := rows[i];
        ClearStep(old(gridView.grid), rows, i, width);
        grid := grid[..rowIndex] + grid[rowIndex + 1..];
        var row := ZeroRow(width);
        grid := [row] + grid;
        i := i + 1;
      }
      assert rows[..i] == rows;
      ClearedShaped(old(gridView.grid), rows, width, gridView.height);
      gridView.grid := grid;
    }

    /** `clearCollection` then `spawnNewBlock`: the block is replaced by a
        new one with catalog shape `index` (the source draws it with
        `_.random`) at the top-left corner. */
    method SpawnNewBlock(index: nat)
      requires gridView.Valid()
      requires CatalogWidth <= gridView.width && CatalogHeight <= gridView.height
      requires index < |Catalog|
      requires paused ==> !ticking
      modifies this
      ensures Valid() && paused == old(paused) && ticking == old(ticking)
      ensures fresh(block) && block.shape == Catalog[index] && block.x == 0 && block.y == 0
    {
      CatalogShapes(index);
      block := new Block(Catalog[index]);
    }

    /** `pause`: toggles `paused`; pausing removes the timer and unpausing
        installs a new one.  After a game over, pausing twice installs the
        timer again. */
    method Pause()
      requires Valid()
      modifies this
      ensures Valid() && block == old(block)
      ensures paused == !old(paused)
      ensures ticking == !paused
    {
      paused := !paused;
      if paused {
        ticking := false;
      } else {
        ticking := true;
      }
    }

    /** The timer's callback: a tick descends only while the timer is
        installed; after game over (or while paused) ticks stop. */
    method Tick(spawn: nat) returns (t: Step)
      requires Valid() && spawn < |Catalog|
      modifies this, block, gridView
      ensures Valid()
      ensures old(ticking) <==> t != Idle
      ensures old(paused) ==> t == Idle
      ensures paused == old(paused)
      ensures old(ticking) && old(CanDrop()) ==>
        && t == Stepped
        && block == old(block) && block.y == old(block.y) + 1
        && block.x == old(block.x) && block.shape == old(block.shape)
        && block.width == old(block.width) && block.height == old(block.height)
        && gridView.grid == old(gridView.grid) && ticking
      ensures old(ticking) && !old(CanDrop()) ==>
        var merged := Merged(old(gridView.grid), old(block.shape), old(block.x), old(block.y));
        && t == Landed(old(block.y) <= 0, CompleteRows(merged))
        && gridView.grid == Cleared(merged, CompleteRows(merged), gridView.width)
        && fresh(block) && block.shape == Catalog[spawn] && block.x == 0 && block.y == 0
        && ticking == (old(block.y) > 0)
      ensures !old(ticking) ==>
        && block == old(block) && unchanged(block) && unchanged(gridView)
        && ticking == old(ticking) && paused == old(paused)
    {
      if ticking {
        t := Descend(spawn);
      } else {
        t := Idle;
      }
    }

    /** `keyAction`: the arrow keys move or rotate the block only while the
        game is not paused; the pause key toggles pause in any case.  Keys
        never touch the grid or replace the block. */
    method KeyAction(code: int)
      requires Valid()
      modifies this, block
      ensures Valid()
      ensures block == old(block)
      ensures old(paused) ==> unchanged(block)
      ensures paused == (if code == KeyPause then !old(paused) else old(paused))
      ensures ticking == (if code == KeyPause then !paused else old(ticking))
      ensures !old(paused) && code !in {KeyLeft, KeyRight, KeyDown, KeyRotate} ==> unchanged(block)
    {
      if !paused {
        if code == KeyLeft {
          var _ := MoveLeft();
        } else if code == KeyRight {
          var _ := MoveRight();
        } else if code == KeyDown {
          var _ := MoveDown();
        } else if code == KeyRotate {
          var _ := Rotate();
        }
      }
      if code == KeyPause {
        Pause();
      }
    }
  }
}
