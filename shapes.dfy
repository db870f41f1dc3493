/** Piece shapes of the falling-block game: the mask type, the quarter turn
    applied by the rotate key, the catalog new pieces are drawn from, and the
    points-per-line table.

    A mask is a list of rows of cells; a cell is `true` where the piece has a
    square (the source writes 1) and `false` where it has none (0). */
module Shapes {

  datatype Option<T> = None | Some(value: T)

  type Mask = seq<seq<bool>>

  /** A mask a block can carry: at least one row, every row as long as the
      first, and that length positive.  The block reads its width from the
      first row, so a mask without one has no width. */
  predicate Rect(m: Mask) {
    |m| > 0 && |m[0]| > 0 && forall i :: 0 <= i < |m| ==> |m[i]| == |m[0]|
  }

  /** Column `j` of a rectangular mask, top to bottom. */
  function Column(m: Mask, j: nat): (col: seq<bool>)
    requires Rect(m) && j < |m[0]|
    ensures |col| == |m| && forall i :: 0 <= i < |m| ==> col[i] == m[i][j]
  {
    seq(|m|, i requires 0 <= i < |m| => m[i][j])
  }

  /** A rectangular mask with no blank border: every row and every column
      holds at least one square.  All catalog shapes are tight. */
  predicate Tight(m: Mask) {
    Rect(m)
    && (forall i :: 0 <= i < |m| ==> true in m[i])
    && (forall j :: 0 <= j < |m[0]| ==> true in Column(m, j))
  }

  /** `_.zip` applied to the rows of a rectangular mask: row `i` of the
      result is column `i` of the mask. */
  function Transpose(m: Mask): (t: Mask)
    requires Rect(m)
    ensures |t| == |m[0]|
    ensures forall i :: 0 <= i < |t| ==> t[i] == Column(m, i)
  {
    seq(|m[0]|, i requires 0 <= i < |m[0]| => Column(m, i))
  }

  /** The transpose of a rectangular mask is rectangular, and transposing
      it again gives back the mask. */
  lemma TransposeTwice(m: Mask)
    requires Rect(m)
    ensures Rect(Transpose(m)) && Transpose(Transpose(m)) == m
  {
    var t := Transpose(m);
    assert Rect(t);
    var tt := Transpose(t);
    forall i | 0 <= i < |m| ensures tt[i] == m[i] {
      forall j | 0 <= j < |m[i]| ensures tt[i][j] == m[i][j] {
        assert tt[i][j] == t[j][i];
      }
    }
  }

  /** `Array.prototype.reverse`: the same rows, last first. */
  function Reverse<T>(s: seq<T>): (r: seq<T>)
    ensures |r| == |s|
    ensures forall k :: 0 <= k < |s| ==> r[k] == s[|s| - 1 - k]
  {
    seq(|s|, k requires 0 <= k < |s| => s[|s| - 1 - k])
  }

  /** Reversing twice gives back the original order. */
  lemma ReverseTwice<T>(s: seq<T>)
    ensures Reverse(Reverse(s)) == s
  {
    var rr := Reverse(Reverse(s));
    forall k | 0 <= k < |s| ensures rr[k] == s[k] {
      assert rr[k] == Reverse(s)[|s| - 1 - k];
    }
  }

  /** The rotate key's transform: transpose, then reverse the row order.
      The result is the mask turned a quarter turn counter-clockwise: the
      old width becomes the new height and the old height the new width,
      and new cell (i, j) is old cell (j, width - 1 - i). */
  function Rotated(m: Mask): (r: Mask)
    requires Rect(m)
    ensures Rect(r)
    ensures |r| == |m[0]| && |r[0]| == |m|
    ensures forall i, j :: 0 <= i < |r| && 0 <= j < |m| ==> r[i][j] == m[j][|m[0]| - 1 - i]
  {
    Reverse(Transpose(m))
  }

  /** Two quarter turns are a half turn: every cell goes to the point
      reflection of its position. */
  lemma HalfTurn(m: Mask)
    requires Rect(m)
    ensures Rect(Rotated(Rotated(m)))
    ensures |Rotated(Rotated(m))| == |m| && |Rotated(Rotated(m))[0]| == |m[0]|
    ensures forall i, j :: 0 <= i < |m| && 0 <= j < |m[0]| ==>
      Rotated(Rotated(m))[i][j] == m[|m| - 1 - i][|m[0]| - 1 - j]
  {
    var r := Rotated(m);
    QuarterTurns(m, r, Rotated(r));
  }

  /** Two quarter turns, each given cell by cell, compose to a point
      reflection. */
  lemma QuarterTurns(m: Mask, r: Mask, rr: Mask)
    requires Rect(m) && Rect(r) && Rect(rr)
    requires |r| == |m[0]| && |r[0]| == |m| && |rr| == |r[0]| && |rr[0]| == |r|
    requires forall i, j :: 0 <= i < |r| && 0 <= j < |m| ==> r[i][j] == m[j][|m[0]| - 1 - i]
    requires forall i, j :: 0 <= i < |rr| && 0 <= j < |r| ==> rr[i][j] == r[j][|r[0]| - 1 - i]
    ensures forall i, j :: 0 <= i < |m| && 0 <= j < |m[0]| ==> rr[i][j] == m[|m| - 1 - i][|m[0]| - 1 - j]
  {
    forall i, j | 0 <= i < |m| && 0 <= j < |m[0]|
      ensures rr[i][j] == m[|m| - 1 - i][|m[0]| - 1 - j]
    {
      assert rr[i][j] == r[j][|m| - 1 - i];
    }
  }

  /** Four quarter turns give back the original mask. */
  lemma FullTurn(m: Mask)
    requires Rect(m)
    ensures Rotated(Rotated(Rotated(Rotated(m)))) == m
  {
    var h := Rotated(Rotated(m));
    HalfTurn(m);
    HalfTurn(h);
    var f := Rotated(Rotated(h));
    FromHalfTurns(m, h, f);
  }

  /** Two half turns cancel, cell by cell. */
  lemma FromHalfTurns(m: Mask, h: Mask, f: Mask)
    requires Rect(m) && Rect(h)
    requires |h| == |m| && |h[0]| == |m[0]| && |f| == |h|
    requires forall i :: 0 <= i < |f| ==> |f[i]| == |h[0]|
    requires forall i, j :: 0 <= i < |m| && 0 <= j < |m[0]| ==> h[i][j] == m[|m| - 1 - i][|m[0]| - 1 - j]
    requires forall i, j :: 0 <= i < |h| && 0 <= j < |h[0]| ==> f[i][j] == h[|h| - 1 - i][|h[0]| - 1 - j]
    ensures f == m
  {
    forall i | 0 <= i < |m| ensures f[i] == m[i] {
      forall j | 0 <= j < |m[i]| ensures f[i][j] == m[i][j] {
        assert f[i][j] == h[|m| - 1 - i][|m[0]| - 1 - j];
      }
    }
  }

  /** A quarter turn keeps a mask tight: rows and columns trade places. */
  lemma RotatedTight(m: Mask)
    requires Tight(m)
    ensures Tight(Rotated(m))
  {
    var r := Rotated(m);
    var w := |m[0]|;
    forall i | 0 <= i < |r| ensures true in r[i] {
      var col := Column(m, w - 1 - i);
      assert true in col;
      var k :| 0 <= k < |col| && col[k];
      assert r[i][k];
    }
    forall j | 0 <= j < |r[0]| ensures true in Column(r, j) {
      assert true in m[j];
      var k :| 0 <= k < |m[j]| && m[j][k];
      assert Column(r, j)[w - 1 - k];
    }
  }

  // The catalog, as `app.shapes` lists it.
  const O := false
  const X := true

  const Catalog: seq<Mask> := [
    [[O, X, O],
     [X, X, X]],
    [[O, X, X],
     [X, X, O]],
    [[X, X, O],
     [O, X, X]],
    [[X],
     [X],
     [X],
     [X]],
    [[X, X, X, X]],
    [[X, X],
     [X, X]],
    [[X, X],
     [X, O],
     [X, O]],
    [[X, X],
     [O, X],
     [O, X]]
  ]

  /** The widest and the tallest catalog shape. */
  const CatalogWidth := 4
  const CatalogHeight := 4

  /** Every catalog shape is tight and fits in a CatalogWidth by
      CatalogHeight box, so a board at least that large can spawn any of
      them at the top-left corner. */
  lemma CatalogShapes(k: nat)
    requires k < |Catalog|
    ensures Tight(Catalog[k])
    ensures |Catalog[k]| <= CatalogHeight && |Catalog[k][0]| <= CatalogWidth
  {
    var m := Catalog[k];
    forall j | 0 <= j < |m[0]| ensures true in Column(m, j) {
      if m[0][j] {
        assert Column(m, j)[0];
      } else {
        assert m[1][j];
        assert Column(m, j)[1];
      }
    }
  }

  /** `app.pointsPerLine`: the reward for clearing 1, 2, 3 or 4 rows at
      once; any other count has no entry. */
  function PointsPerLine(lines: int): (points: Option<nat>)
    ensures points.Some? <==> 1 <= lines <= 4
  {
    if lines == 1 then Some(40)
    else if lines == 2 then Some(100)
    else if lines == 3 then Some(300)
    else if lines == 4 then Some(1200)
    else None
  }

  /** Clearing more rows at once earns more per row, not only more in total. */
  lemma PointsRewardMultiples(a: int, b: int)
    requires 1 <= a < b <= 4
    ensures PointsPerLine(a).value < PointsPerLine(b).value
    ensures PointsPerLine(a).value * b < PointsPerLine(b).value * a
  {
  }
}
