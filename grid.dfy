/** The grid of landed squares, as values: the blank grid, the collision
    test of a mask at an offset, what merging a landed block does, which rows
    are complete and what clearing them leaves.  The game object that owns
    the grid (module Board) is specified by these functions.

    Rows are numbered from the top (row 0) down, columns from the left. */
module Grid {
  import opened Shapes

  type Grid = seq<seq<bool>>

  /** `height` rows of `width` cells each. */
  predicate Shaped(g: Grid, width: int, height: int) {
    |g| == height && forall r :: 0 <= r < |g| ==> |g[r]| == width
  }

  function BlankRow(width: nat): (row: seq<bool>)
    ensures |row| == width && forall c :: 0 <= c < width ==> !row[c]
  {
    seq(width, _ => false)
  }

  /** `count` blank rows of `width` cells: what `clearGrid` builds, and the
      rows clearing puts back at the top. */
  function BlankRows(count: nat, width: nat): (rows: Grid)
    ensures Shaped(rows, width, count)
    ensures forall r, c :: 0 <= r < count && 0 <= c < width ==> !rows[r][c]
  {
    seq(count, _ => BlankRow(width))
  }

  // ---------------------------------------------------------------- cells

  /** Mask cell (a, b) holds a square. */
  predicate Filled(m: Mask, a: int, b: int) {
    0 <= a < |m| && 0 <= b < |m[a]| && m[a][b]
  }

  /** Grid cell (r, c) holds a landed square.  A column past either end of
      its row reads as free, as indexing a JavaScript array out of range
      gives `undefined`, which is not 1. */
  predicate Occupied(g: Grid, r: int, c: int) {
    0 <= r < |g| && 0 <= c < |g[r]| && g[r][c]
  }

  /** Mask cell (a, b), placed with the mask's top-left corner at (x, y),
      is empty or lands on an existing row in a free cell. */
  predicate CellFits(g: Grid, m: Mask, x: int, y: int, a: int, b: int) {
    Filled(m, a, b) ==> 0 <= y + a < |g| && !Occupied(g, y + a, x + b)
  }

  /** The whole mask at (x, y) lands on existing rows and overlaps nothing. */
  ghost predicate Fits(g: Grid, m: Mask, x: int, y: int) {
    forall a, b :: CellFits(g, m, x, y, a, b)
  }

  // ------------------------------------------------------------ collision

  /** The outcome of `shapeFits`: it returns true (Pass) or false (Fail), or
      it throws (Fault) when it indexes a row the grid does not have:
      `app.grid[checkY]` is then undefined and reading a column of it fails. */
  datatype Probe = Pass | Fail | Fault

  /** Cell (a, b) of the mask comes at or after (i, j) in row-major order. */
  predicate Pending(m: Mask, i: int, j: int, a: int, b: int) {
    0 <= a < |m| && 0 <= b < |m[a]| && (i < a || (i == a && j <= b))
  }

  /** The scan of `shapeFits` from mask cell (i, j) on: rows top to bottom,
      cells left to right, skipping empty cells, stopping at the first square
      whose row is missing (Fault) or whose cell is taken (Fail). */
  function Scan(g: Grid, m: Mask, x: int, y: int, i: nat, j: nat): (r: Probe)
    decreases |m| - i, if i < |m| then |m[i]| - j else 0
    ensures r == Pass <==> forall a, b :: Pending(m, i, j, a, b) ==> CellFits(g, m, x, y, a, b)
    ensures r == Fault ==> exists a, b :: Pending(m, i, j, a, b) && Filled(m, a, b) && !(0 <= y + a < |g|)
    ensures r == Fail ==> exists a, b :: Pending(m, i, j, a, b) && Filled(m, a, b) && Occupied(g, y + a, x + b)
  {
    if i >= |m| then Pass
    else if j >= |m[i]| then Scan(g, m, x, y, i + 1, 0)
    else if !m[i][j] then Scan(g, m, x, y, i, j + 1)
    else if !(0 <= y + i < |g|) then
      assert Pending(m, i, j, i, j) && !CellFits(g, m, x, y, i, j);
      Fault
    else if Occupied(g, y + i, x + j) then
      assert Pending(m, i, j, i, j) && !CellFits(g, m, x, y, i, j);
      Fail
    else Scan(g, m, x, y, i, j + 1)
  }

  /** `shapeFits(shape, x, y)`: Pass exactly when every square of the mask
      lands on an existing row in a free cell; a Fault or a Fail names a
      square that is off the rows or on a taken cell. */
  function ShapeFits(g: Grid, m: Mask, x: int, y: int): (r: Probe)
    ensures r == Pass <==> Fits(g, m, x, y)
    ensures r == Fault ==> exists a, b :: Filled(m, a, b) && !(0 <= y + a < |g|)
    ensures r == Fail ==> exists a, b :: Filled(m, a, b) && Occupied(g, y + a, x + b)
  {
    Scan(g, m, x, y, 0, 0)
  }

  /** `shapeWithinBounds(shape, x, y)`: only the left and right edges are
      checked; the row position is never looked at. */
  function ShapeWithinBounds(m: Mask, x: int, width: int): (ok: bool)
    requires |m| > 0
    ensures ok <==> 0 <= x && x + |m[0]| <= width
  {
    if x < 0 then false
    else if x + |m[0]| > width then false
    else true
  }

  /** Column `b` of a mask placed at column `x` lands on one of the
      board's `width` columns. */
  predicate Lands(x: int, b: int, width: int) {
    0 <= x + b < width
  }

  /** The bounds check passes exactly when every column of the mask, and
      so every cell of every row of a rectangular mask, lands on the
      board. */
  lemma ShapeWithinBoundsCells(m: Mask, x: int, width: int)
    requires Rect(m)
    ensures ShapeWithinBounds(m, x, width) <==>
      forall b :: 0 <= b < |m[0]| ==> Lands(x, b, width)
  {
    var w := |m[0]|;
    if forall b :: 0 <= b < |m[0]| ==> Lands(x, b, width) {
      assert Lands(x, 0, width);
      assert Lands(x, w - 1, width);
    }
  }

  /** `rotatedShapeFits`: `shapeFits(...) && shapeWithinBounds(...)`.  The
      collision scan runs first, so a mask that reaches below the grid
      faults even when it is also out of bounds sideways, and a bounds
      failure only shows if the scan passed. */
  function RotatedShapeFits(g: Grid, width: int, m: Mask, x: int, y: int): (r: Probe)
    requires |m| > 0
    ensures r == Pass <==> Fits(g, m, x, y) && 0 <= x && x + |m[0]| <= width
    ensures r == Fault <==> ShapeFits(g, m, x, y) == Fault
  {
    var p := ShapeFits(g, m, x, y);
    if p == Pass && !ShapeWithinBounds(m, x, width) then Fail else p
  }

  /** On a blank grid every placement whose squares all land on existing
      rows passes the collision test. */
  lemma FitsBlank(m: Mask, x: int, y: int, width: nat, height: nat)
    requires forall a, b :: Filled(m, a, b) ==> 0 <= y + a < height
    ensures ShapeFits(BlankRows(height, width), m, x, y) == Pass
  {
    var g := BlankRows(height, width);
    forall a, b ensures CellFits(g, m, x, y, a, b) {
      if Filled(m, a, b) {
        assert !Occupied(g, y + a, x + b);
      }
    }
  }

  /** A tight mask that passes the collision test ends on an existing row:
      its bottom row holds a square, and that square was checked. */
  lemma FitsWithinRows(g: Grid, m: Mask, x: int, y: int)
    requires Tight(m) && Fits(g, m, x, y)
    ensures 0 <= y && y + |m| <= |g|
  {
    var last := |m| - 1;
    assert true in m[last];
    var b :| 0 <= b < |m[last]| && m[last][b];
    assert CellFits(g, m, x, y, last, b);
    assert true in m[0];
    var b0 :| 0 <= b0 < |m[0]| && m[0][b0];
    assert CellFits(g, m, x, y, 0, b0);
  }

  // ---------------------------------------------------------------- merge

  /** `GridView.updateGrid`: the grid with every square of the mask placed
      at (x, y) set; nothing else changes. */
  function Merged(g: Grid, m: Mask, x: int, y: int): (r: Grid)
    ensures |r| == |g| && forall i :: 0 <= i < |g| ==> |r[i]| == |g[i]|
  {
    seq(|g|, i requires 0 <= i < |g| =>
      seq(|g[i]|, j requires 0 <= j < |g[i]| => g[i][j] || Filled(m, i - y, j - x)))
  }

  /** A merge sets exactly the cells the block covers and keeps the rest. */
  lemma MergedCells(g: Grid, m: Mask, x: int, y: int, i: int, j: int)
    requires 0 <= i < |g| && 0 <= j < |g[i]|
    ensures Filled(m, i - y, j - x) ==> Merged(g, m, x, y)[i][j]
    ensures !Filled(m, i - y, j - x) ==> Merged(g, m, x, y)[i][j] == g[i][j]
  {
  }

  /** After a block is merged at a spot it fitted, the same block no longer
      fits there: every square it brought is now taken. */
  lemma MergedBlocksItself(g: Grid, m: Mask, x: int, y: int, a: int, b: int)
    requires forall a', b' :: Filled(m, a', b') ==> 0 <= y + a' < |g|
    requires Filled(m, a, b) && 0 <= x + b < |g[y + a]|
    ensures ShapeFits(Merged(g, m, x, y), m, x, y) == Fail
  {
    var g' := Merged(g, m, x, y);
    assert Occupied(g', y + a, x + b);
    assert !CellFits(g', m, x, y, a, b);
  }

  /** A merge keeps the grid's dimensions. */
  lemma MergedShaped(g: Grid, m: Mask, x: int, y: int, width: int, height: int)
    requires Shaped(g, width, height)
    ensures Shaped(Merged(g, m, x, y), width, height)
  {
  }

  // -------------------------------------------------------- complete rows

  /** Every cell of the row holds a square (`row[x] != 1` never holds). */
  predicate Complete(row: seq<bool>) {
    forall c :: 0 <= c < |row| ==> row[c]
  }

  predicate Ascending(s: seq<int>) {
    forall a, b :: 0 <= a < b < |s| ==> s[a] < s[b]
  }

  /** The indices of the complete rows, top to bottom, as
      `checkCompleteRows` collects them. */
  function CompleteRows(g: Grid): (rows: seq<int>)
    ensures Ascending(rows)
    ensures forall k :: 0 <= k < |rows| ==> 0 <= rows[k] < |g|
    ensures forall r :: r in rows <==> 0 <= r < |g| && Complete(g[r])
  {
    if |g| == 0 then []
    else
      var last := |g| - 1;
      CompleteRows(g[..last]) + (if Complete(g[last]) then [last] else [])
  }

  /** One scan of the grid, as `checkCompleteRows` does it, row by row and
      cell by cell, without stopping early. */
  method FindCompleteRows(g: Grid) returns (rows: seq<int>)
    ensures rows == CompleteRows(g)
  {
    rows := [];
    var y := 0;
    while y < |g|
      invariant 0 <= y <= |g|
      invariant rows == CompleteRows(g[..y])
    {
      var row := g[y];
      var complete := true;
      var x := 0;
      while x < |row|
        invariant 0 <= x <= |row|
        invariant complete <==> forall c :: 0 <= c < x ==> row[c]
      {
        if !row[x] {
          complete := false;
        }
        x := x + 1;
      }
      if complete {
        rows := rows + [y];
      }
      assert g[..y + 1][..y] == g[..y];
      y := y + 1;
    }
    assert g[..y] == g;
  }

  /** A blank grid with at least one column has no complete row. */
  lemma CompleteRowsBlank(width: nat, height: nat)
    requires width > 0
    ensures CompleteRows(BlankRows(height, width)) == []
  {
    var g := BlankRows(height, width);
    forall r | 0 <= r < |g| ensures !Complete(g[r]) {
      assert !g[r][0];
    }
    NoCompleteRows(g);
  }

  /** In a grid whose every row is complete, every index is reported, in
      order. */
  lemma {:induction false} CompleteRowsAll(g: Grid)
    requires forall r :: 0 <= r < |g| ==> Complete(g[r])
    ensures CompleteRows(g) == seq(|g|, r => r)
  {
    if |g| > 0 {
      var last := |g| - 1;
      CompleteRowsAll(g[..last]);
      assert seq(last, r => r) + [last] == seq(|g|, r => r);
    }
  }

  // ------------------------------------------------------------- clearing

  /** The rows of `g` whose indices are not listed, in their original order. */
  function Survivors(g: Grid, rows: seq<int>): (s: Grid)
    ensures |s| <= |g|
  {
    if |g| == 0 then []
    else
      var last := |g| - 1;
      Survivors(g[..last], rows) + (if last in rows then [] else [g[last]])
  }

  /** Every surviving row is a row of `g` that was not listed. */
  lemma {:induction false} SurvivorsFrom(g: Grid, rows: seq<int>, row: seq<bool>)
    requires row in Survivors(g, rows)
    ensures exists i :: 0 <= i < |g| && i !in rows && g[i] == row
  {
    var last := |g| - 1;
    if row in Survivors(g[..last], rows) {
      SurvivorsFrom(g[..last], rows, row);
      var i :| 0 <= i < last && i !in rows && g[..last][i] == row;
      assert g[i] == row;
    } else {
      assert last !in rows && g[last] == row;
    }
  }

  /** Every row of `g` that was not listed survives. */
  lemma {:induction false} SurvivorsKeep(g: Grid, rows: seq<int>, i: int)
    requires 0 <= i < |g| && i !in rows
    ensures g[i] in Survivors(g, rows)
  {
    var last := |g| - 1;
    if i < last {
      SurvivorsKeep(g[..last], rows, i);
    }
  }

  /** An unlisted row `i` survives at the position that follows the
      survivors above it: the survivors keep their original order, and
      equal rows are not confused. */
  lemma {:induction false} SurvivorsAt(g: Grid, rows: seq<int>, i: int)
    requires 0 <= i < |g| && i !in rows
    ensures |Survivors(g[..i], rows)| < |Survivors(g, rows)|
    ensures Survivors(g, rows)[|Survivors(g[..i], rows)|] == g[i]
  {
    var last := |g| - 1;
    if i < last {
      SurvivorsAt(g[..last], rows, i);
      assert g[..last][..i] == g[..i];
    } else {
      assert g[..i] == g[..last];
    }
  }

  /** Every position of the survivors holds an unlisted row `i`, the one
      with exactly that many survivors above it: nothing but unlisted rows
      survives, each once. */
  lemma {:induction false} SurvivorsOnly(g: Grid, rows: seq<int>, k: int)
    requires 0 <= k < |Survivors(g, rows)|
    ensures exists i :: (0 <= i < |g| && i !in rows
      && |Survivors(g[..i], rows)| == k && Survivors(g, rows)[k] == g[i])
  {
    var last := |g| - 1;
    var front := Survivors(g[..last], rows);
    if k < |front| {
      SurvivorsOnly(g[..last], rows, k);
      var i :| 0 <= i < last && i !in rows
        && |Survivors(g[..last][..i], rows)| == k && front[k] == g[..last][i];
      assert g[..last][..i] == g[..i];
      assert Survivors(g, rows)[k] == g[i];
    } else {
      assert g[..last] == g[..last][..last];
      assert last !in rows && Survivors(g, rows)[k] == g[last];
    }
  }

  /** The grid after `clearCompleteRows(rows)`: the listed rows are gone,
      the other rows keep their order, and as many blank rows as were
      removed sit on top. */
  function Cleared(g: Grid, rows: seq<int>, width: nat): Grid
  {
    BlankRows(|rows|, width) + Survivors(g, rows)
  }

  /** Survivors only looks at the listed indices that name a row. */
  lemma {:induction false} SurvivorsSameRows(g: Grid, rows: seq<int>, other: seq<int>)
    requires forall i :: 0 <= i < |g| ==> (i in rows <==> i in other)
    ensures Survivors(g, rows) == Survivors(g, other)
  {
    if |g| > 0 {
      SurvivorsSameRows(g[..|g| - 1], rows, other);
    }
  }

  /** Removing k distinct existing rows leaves |g| - k rows. */
  lemma {:induction false} SurvivorsLength(g: Grid, rows: seq<int>)
    requires Ascending(rows)
    requires forall k :: 0 <= k < |rows| ==> 0 <= rows[k] < |g|
    ensures |Survivors(g, rows)| == |g| - |rows|
  {
    if |g| > 0 {
      var last := |g| - 1;
      if last in rows {
        var n := |rows| - 1;
        assert rows[n] == last;
        var front := rows[..n];
        forall k | 0 <= k < |front| ensures 0 <= front[k] < last {
          assert front[k] < rows[n];
        }
        SurvivorsSameRows(g[..last], rows, front);
        SurvivorsLength(g[..last], front);
      } else {
        forall k | 0 <= k < |rows| ensures 0 <= rows[k] < last {
          assert rows[k] in rows;
        }
        SurvivorsLength(g[..last], rows);
      }
    } else {
      AscendingBelow(rows, 0);
    }
  }

  /** An ascending list of indices below n has at most n entries. */
  lemma {:induction false} AscendingBelow(rows: seq<int>, n: nat)
    requires Ascending(rows)
    requires forall k :: 0 <= k < |rows| ==> 0 <= rows[k] < n
    ensures |rows| <= n
  {
    if |rows| > 0 {
      var top := rows[|rows| - 1];
      var front := rows[..|rows| - 1];
      forall k | 0 <= k < |front| ensures 0 <= front[k] < top {
        assert front[k] == rows[k];
      }
      AscendingBelow(front, top);
    }
  }

  /** With nothing listed, every row survives. */
  lemma {:induction false} SurvivorsNone(g: Grid)
    ensures Survivors(g, []) == g
  {
    if |g| > 0 {
      SurvivorsNone(g[..|g| - 1]);
      assert g[..|g| - 1] + [g[|g| - 1]] == g;
    }
  }

  /** When no listed index is n or above, the rows from n on all survive. */
  lemma {:induction false} SurvivorsSplit(g: Grid, rows: seq<int>, n: nat)
    requires n <= |g|
    requires forall i :: n <= i < |g| ==> i !in rows
    ensures Survivors(g, rows) == Survivors(g[..n], rows) + g[n..]
  {
    if |g| > n {
      var last := |g| - 1;
      SurvivorsSplit(g[..last], rows, n);
      assert g[..last][..n] == g[..n];
      assert g[..last][n..] + [g[last]] == g[n..];
    } else {
      assert g[..n] == g;
    }
  }

  /** One pass of the clearing loop.  After the first i listed rows are
      handled, the grid is Cleared(g, rows[..i], width); the next listed row
      is still at its own index (each splice above it was matched by an
      unshift), and splicing it out and putting a blank row on top gives
      Cleared(g, rows[..i + 1], width). */
  lemma ClearStep(g: Grid, rows: seq<int>, i: nat, width: nat)
    requires Ascending(rows)
    requires forall k :: 0 <= k < |rows| ==> 0 <= rows[k] < |g|
    requires i < |rows|
    ensures rows[i] < |Cleared(g, rows[..i], width)|
    ensures Cleared(g, rows[..i], width)[rows[i]] == g[rows[i]]
    ensures var c := Cleared(g, rows[..i], width);
      [BlankRow(width)] + (c[..rows[i]] + c[rows[i] + 1..]) == Cleared(g, rows[..i + 1], width)
  {
    var r := rows[i];
    SurvivorsAround(g, rows, i);
    var front := Survivors(g[..r], rows[..i]);
    var blank := BlankRows(i, width);
    assert BlankRows(i + 1, width) == [BlankRow(width)] + blank;
    SpliceStep(blank, BlankRow(width), front, g[r], g[r + 1..],
      Cleared(g, rows[..i], width), Cleared(g, rows[..i + 1], width));
  }

  /** Taking the row after `blank + front` out of a grid and putting `b` on
      top. */
  lemma SpliceStep<T>(blank: seq<T>, b: T, front: seq<T>, x: T, tail: seq<T>, c: seq<T>, c2: seq<T>)
    requires c == blank + (front + [x] + tail)
    requires c2 == ([b] + blank) + (front + tail)
    ensures |blank| + |front| < |c| && c[|blank| + |front|] == x
    ensures [b] + (c[..|blank| + |front|] + c[|blank| + |front| + 1..]) == c2
  {
    var n := |blank| + |front|;
    assert c[..n] == blank + front;
    assert c[n + 1..] == tail;
  }

  /** Where the next listed row sits among the survivors so far: after the
      r - i unlisted rows above it, followed by every row below it. */
  lemma SurvivorsAround(g: Grid, rows: seq<int>, i: nat)
    requires Ascending(rows)
    requires forall k :: 0 <= k < |rows| ==> 0 <= rows[k] < |g|
    requires i < |rows|
    ensures var r := rows[i];
      var front := Survivors(g[..r], rows[..i]);
      && |front| == r - i
      && Survivors(g, rows[..i]) == front + [g[r]] + g[r + 1..]
      && Survivors(g, rows[..i + 1]) == front + g[r + 1..]
  {
    var r := rows[i];
    var done, next := rows[..i], rows[..i + 1];
    assert forall k :: 0 <= k < |done| ==> 0 <= done[k] < r;
    assert Ascending(done) && next == done + [r];
    SurvivorsLength(g[..r], done);
    SurvivorsThrough(g, done, r);
    SurvivorsPast(g, done, next, r);
  }

  /** With no listed row at or below `r`, row `r` and the rest follow the
      survivors above it. */
  lemma SurvivorsThrough(g: Grid, done: seq<int>, r: nat)
    requires r < |g|
    requires forall k :: 0 <= k < |done| ==> done[k] < r
    ensures Survivors(g, done) == Survivors(g[..r], done) + [g[r]] + g[r + 1..]
  {
    assert forall j :: r <= j < |g| ==> j !in done;
    SurvivorsSplit(g, done, r + 1);
    var upper := g[..r + 1];
    assert upper[..r] == g[..r];
    assert Survivors(upper, done) == Survivors(g[..r], done) + [g[r]];
  }

  /** Listing row `r` as well drops it and nothing else. */
  lemma SurvivorsPast(g: Grid, done: seq<int>, next: seq<int>, r: nat)
    requires r < |g| && next == done + [r]
    requires forall k :: 0 <= k < |done| ==> done[k] < r
    ensures Survivors(g, next) == Survivors(g[..r], done) + g[r + 1..]
  {
    assert forall j :: r < j < |g| ==> j !in next;
    SurvivorsSplit(g, next, r + 1);
    assert g[..r + 1][..r] == g[..r];
    assert Survivors(g[..r + 1], next) == Survivors(g[..r], next);
    SurvivorsSameRows(g[..r], next, done);
  }

  /** Clearing an empty list of rows leaves the grid as it was. */
  lemma ClearedNone(g: Grid, width: nat)
    ensures Cleared(g, [], width) == g
  {
    SurvivorsNone(g);
  }

  /** Clearing distinct existing rows keeps the grid's dimensions. */
  lemma ClearedShaped(g: Grid, rows: seq<int>, width: nat, height: nat)
    requires Shaped(g, width, height)
    requires Ascending(rows)
    requires forall k :: 0 <= k < |rows| ==> 0 <= rows[k] < |g|
    ensures Shaped(Cleared(g, rows, width), width, height)
  {
    SurvivorsLength(g, rows);
    var blank, survivors := BlankRows(|rows|, width), Survivors(g, rows);
    var c := blank + survivors;
    forall r | 0 <= r < |c| ensures |c[r]| == width {
      if r >= |blank| {
        assert c[r] == survivors[r - |blank|];
        SurvivorsFrom(g, rows, c[r]);
      }
    }
  }

  /** Clearing the complete rows of a grid with at least one column leaves
      no complete row: the blank rows on top are not complete, and every
      surviving row was not. */
  lemma ClearedHasNoCompleteRow(g: Grid, width: nat, height: nat)
    requires Shaped(g, width, height) && width > 0
    ensures CompleteRows(Cleared(g, CompleteRows(g), width)) == []
  {
    var rows := CompleteRows(g);
    var blank, survivors := BlankRows(|rows|, width), Survivors(g, rows);
    var c := blank + survivors;
    forall r | 0 <= r < |c| ensures !Complete(c[r]) {
      if r < |blank| {
        assert !c[r][0];
      } else {
        assert c[r] == survivors[r - |blank|];
        SurvivorsFrom(g, rows, c[r]);
      }
    }
    NoCompleteRows(c);
  }

  /** A grid without a complete row has nothing to clear. */
  lemma {:induction false} NoCompleteRows(g: Grid)
    requires forall r :: 0 <= r < |g| ==> !Complete(g[r])
    ensures CompleteRows(g) == []
  {
    if |g| > 0 {
      NoCompleteRows(g[..|g| - 1]);
    }
  }
}
