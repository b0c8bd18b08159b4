/**
 The grid operations `transpose` (`zip(*rows)`) and `rotate` (`zip(*reversed(rows))`)
 on a grid of rows of cells. Because `zip` stops at its shortest argument, a ragged
 grid is cut down to its shortest row; nothing fails.
 */
module Grid {
  import opened Text

  type Row = seq<string>
  type Grid = seq<Row>

  /** Length of the shortest row of a non-empty grid. */
  function MinWidth(g: Grid): (w: nat)
    requires |g| > 0
    ensures forall j :: 0 <= j < |g| ==> w <= |g[j]|
  {
    if |g| == 1 then |g[0]|
    else
      var m := MinWidth(g[1..]);
      assert forall j :: 1 <= j < |g| ==> g[j] == g[1..][j - 1];
      if |g[0]| <= m then |g[0]| else m
  }

  /** Some row is exactly as wide as the shortest: `MinWidth` is a minimum, not just a bound. */
  lemma {:induction false} MinWidthAttained(g: Grid) returns (k: nat)
    requires |g| > 0
    ensures k < |g| && |g[k]| == MinWidth(g)
    decreases |g|
  {
    if |g| == 1 {
      k := 0;
    } else if |g[0]| <= MinWidth(g[1..]) {
      k := 0;
    } else {
      var k' := MinWidthAttained(g[1..]);
      k := k' + 1;
    }
  }

  /** Every row has exactly `w` cells. */
  predicate Rectangular(g: Grid, w: nat)
  {
    forall j :: 0 <= j < |g| ==> |g[j]| == w
  }

  /** The grid cut down to its first `w` columns. */
  function Truncate(g: Grid, w: nat): (t: Grid)
    requires forall j :: 0 <= j < |g| ==> w <= |g[j]|
    ensures |t| == |g| && Rectangular(t, w)
    ensures forall j, i :: 0 <= j < |g| && 0 <= i < w ==> t[j][i] == g[j][i]
  {
    seq(|g|, j requires 0 <= j < |g| => g[j][..w])
  }

  /** Column `i` of the grid, top to bottom. */
  function Column(g: Grid, i: nat): (c: Row)
    requires forall j :: 0 <= j < |g| ==> i < |g[j]|
    ensures |c| == |g|
    ensures forall j :: 0 <= j < |g| ==> c[j] == g[j][i]
  {
    seq(|g|, j requires 0 <= j < |g| => g[j][i])
  }

  /** What is left of every row once `zip` has taken its first cell. */
  function Tails(g: Grid): (t: Grid)
    requires forall j :: 0 <= j < |g| ==> |g[j]| > 0
    ensures |t| == |g|
    ensures forall j :: 0 <= j < |g| ==> t[j] == g[j][1..]
  {
    seq(|g|, j requires 0 <= j < |g| => g[j][1..])
  }

  lemma MinWidthTails(g: Grid)
    requires |g| > 0 && MinWidth(g) > 0
    ensures MinWidth(Tails(g)) == MinWidth(g) - 1
  {
    var t := Tails(g);
    var k := MinWidthAttained(g);
    assert |t[k]| == MinWidth(g) - 1;
    var k' := MinWidthAttained(t);
    assert |t[k']| == |g[k']| - 1;
  }

  lemma ColumnTails(g: Grid, i: nat)
    requires |g| > 0 && i + 1 < MinWidth(g)
    ensures MinWidth(Tails(g)) == MinWidth(g) - 1
    ensures Column(Tails(g), i) == Column(g, i + 1)
  {
    MinWidthTails(g);
    var a, b := Column(Tails(g), i), Column(g, i + 1);
    assert forall j :: 0 <= j < |g| ==> a[j] == Tails(g)[j][i] == b[j];
  }

  /**
   `zip(*g)`: row `i` of the result is column `i` of `g`. `zip` stops as soon as some
   row is exhausted, so the result has as many rows as the shortest row of `g` has
   cells; `zip()` of no rows is empty.
   */
  function Transpose(g: Grid): (t: Grid)
    ensures |g| == 0 ==> t == []
    ensures |g| > 0 ==> |t| == MinWidth(g)
    ensures forall i :: 0 <= i < |t| ==> t[i] == Column(g, i)
  {
    if |g| == 0 then []
    else seq(MinWidth(g), i requires 0 <= i < MinWidth(g) => Column(g, i))
  }

  /**
   The step `zip` repeats: while every row still has a cell, emit the tuple of first
   cells and carry on with what is left of the rows; stop at the first exhausted row.
   `Transpose` is exactly the result of running this step to the end.
   */
  lemma ZipStep(g: Grid)
    requires |g| > 0
    ensures MinWidth(g) == 0 ==> Transpose(g) == []
    ensures MinWidth(g) > 0 ==> Transpose(g) == [Column(g, 0)] + Transpose(Tails(g))
  {
    if MinWidth(g) > 0 {
      ZipStepTaken(g);
    }
  }

  /** The step when every row still has a cell. */
  lemma ZipStepTaken(g: Grid)
    requires |g| > 0 && MinWidth(g) > 0
    ensures Transpose(g) == [Column(g, 0)] + Transpose(Tails(g))
  {
    MinWidthTails(g);
    var a, rest := Transpose(g), Transpose(Tails(g));
    forall i | 1 <= i < |a|
      ensures a[i] == rest[i - 1]
    {
      ZipStepRow(g, i);
    }
  }

  /** Row `i` of the transpose is row `i - 1` of the transpose of the tails. */
  lemma ZipStepRow(g: Grid, i: nat)
    requires |g| > 0 && 1 <= i < MinWidth(g)
    ensures MinWidth(Tails(g)) == MinWidth(g) - 1
    ensures Transpose(g)[i] == Transpose(Tails(g))[i - 1]
  {
    ColumnTails(g, i - 1);
  }

  /** The cell at row `i`, column `j` of the transpose is the cell at row `j`, column `i`. */
  lemma TransposeCell(g: Grid, i: nat, j: nat)
    requires i < |Transpose(g)| && j < |g|
    ensures |Transpose(g)[i]| == |g| && i < |g[j]| && Transpose(g)[i][j] == g[j][i]
  {
  }

  /** A ragged grid transposes exactly as its truncation to the shortest row does. */
  lemma TransposeTruncates(g: Grid)
    requires |g| > 0
    ensures Transpose(g) == Transpose(Truncate(g, MinWidth(g)))
  {
    var m := MinWidth(g);
    var tg := Truncate(g, m);
    MinWidthRectangular(tg, m);
    var a, b := Transpose(g), Transpose(tg);
    assert |a| == |b| == m;
    forall i | 0 <= i < m
      ensures a[i] == b[i]
    {
      ColumnTruncate(g, m, i);
    }
  }

  lemma ColumnTruncate(g: Grid, w: nat, i: nat)
    requires forall j :: 0 <= j < |g| ==> w <= |g[j]|
    requires i < w
    ensures Column(Truncate(g, w), i) == Column(g, i)
  {
  }

  /**
   Transposing twice gives back the grid cut down to its shortest row: nothing beyond
   the shortest row survives, everything up to it is restored.
   */
  lemma TransposeTwice(g: Grid)
    requires |g| > 0 && MinWidth(g) > 0
    ensures Transpose(Transpose(g)) == Truncate(g, MinWidth(g))
  {
    var tt := Transpose(Transpose(g));
    var tr := Truncate(g, MinWidth(g));
    TransposeTwiceRows(g);
    assert |tt| == |tr|;
    forall j | 0 <= j < |g|
      ensures tt[j] == tr[j]
    {
      TransposeTwiceRow(g, j);
    }
  }

  lemma TransposeTwiceRows(g: Grid)
    requires |g| > 0 && MinWidth(g) > 0
    ensures |Transpose(Transpose(g))| == |g|
  {
    TransposeShape(g);
    MinWidthRectangular(Transpose(g), |g|);
  }

  lemma TransposeTwiceRow(g: Grid, j: nat)
    requires |g| > 0 && MinWidth(g) > 0 && j < |g|
    ensures |Transpose(Transpose(g))| == |g|
    ensures Transpose(Transpose(g))[j] == g[j][..MinWidth(g)]
  {
    var m := MinWidth(g);
    var t := Transpose(g);
    TransposeTwiceRows(g);
    var c := Column(t, j);
    assert Transpose(t)[j] == c;
    forall i | 0 <= i < m
      ensures c[i] == g[j][i]
    {
      assert c[i] == t[i][j];
      assert t[i] == Column(g, i);
    }
  }

  /** The shortest row of a rectangular grid is as wide as all of them. */
  lemma MinWidthRectangular(g: Grid, w: nat)
    requires |g| > 0 && Rectangular(g, w)
    ensures MinWidth(g) == w
  {
  }

  /** Every row of a transpose holds one cell per row of the input. */
  lemma TransposeShape(g: Grid)
    ensures Rectangular(Transpose(g), |g|)
  {
  }

  /** Rectangular grids are their own truncation. */
  lemma TruncateRectangular(g: Grid, w: nat)
    requires Rectangular(g, w)
    ensures Truncate(g, w) == g
  {
    var tr := Truncate(g, w);
    forall j | 0 <= j < |g|
      ensures tr[j] == g[j]
    {
      assert g[j][..w] == g[j];
    }
  }

  /** Transposition is an involution on rectangular grids with at least one column. */
  lemma TransposeInvolution(g: Grid, w: nat)
    requires |g| > 0 && w > 0 && Rectangular(g, w)
    ensures Transpose(Transpose(g)) == g
  {
    MinWidthRectangular(g, w);
    TransposeTwice(g);
    TruncateRectangular(g, w);
  }

  /** A rectangular grid of `n` rows and `w > 0` columns transposes to `w` rows of `n` cells. */
  lemma TransposeRectangular(g: Grid, w: nat)
    requires |g| > 0 && w > 0 && Rectangular(g, w)
    ensures |Transpose(g)| == w && Rectangular(Transpose(g), |g|)
  {
    MinWidthRectangular(g, w);
    TransposeShape(g);
  }

  /**
   `zip(*reversed(g))`: a quarter turn clockwise. Row `i` of the result is column `i`
   of `g` read from the bottom row up.
   */
  function Rotate(g: Grid): (r: Grid)
    ensures |g| == 0 ==> r == []
    ensures |g| > 0 ==> |r| == MinWidth(g)
    ensures forall i :: 0 <= i < |r| ==> r[i] == Reverse(Column(g, i))
  {
    var rev := Reverse(g);
    if |g| == 0 then Transpose(rev)
    else
      MinWidthReverse(g);
      ColumnsReverse(g);
      Transpose(rev)
  }

  lemma MinWidthReverse(g: Grid)
    requires |g| > 0
    ensures MinWidth(Reverse(g)) == MinWidth(g)
  {
    var rev := Reverse(g);
    var k := MinWidthAttained(g);
    assert |rev[|g| - 1 - k]| == MinWidth(g);
    var k' := MinWidthAttained(rev);
    assert rev[k'] == g[|g| - 1 - k'];
  }

  /** Reading a column of the upside-down grid is reading the column bottom-up. */
  lemma ColumnsReverse(g: Grid)
    requires |g| > 0
    ensures MinWidth(Reverse(g)) == MinWidth(g)
    ensures forall i :: 0 <= i < MinWidth(g) ==> Column(Reverse(g), i) == Reverse(Column(g, i))
  {
    MinWidthReverse(g);
    forall i | 0 <= i < MinWidth(g)
      ensures Column(Reverse(g), i) == Reverse(Column(g, i))
    {
      ColumnReverse(g, i);
    }
  }

  lemma ColumnReverse(g: Grid, i: nat)
    requires |g| > 0 && i < MinWidth(g)
    ensures MinWidth(Reverse(g)) == MinWidth(g)
    ensures Column(Reverse(g), i) == Reverse(Column(g, i))
  {
    MinWidthReverse(g);
    var a, b := Column(Reverse(g), i), Reverse(Column(g, i));
    forall j | 0 <= j < |g|
      ensures a[j] == b[j]
    {
      ColumnReverseCell(g, i, j);
    }
  }

  lemma ColumnReverseCell(g: Grid, i: nat, j: nat)
    requires forall k :: 0 <= k < |g| ==> i < |g[k]|
    requires j < |g|
    ensures forall k :: 0 <= k < |g| ==> i < |Reverse(g)[k]|
    ensures Column(Reverse(g), i)[j] == Reverse(Column(g, i))[j]
  {
    var k := |g| - 1 - j;
    assert Reverse(g)[j] == g[k];
    assert Reverse(Column(g, i))[j] == Column(g, i)[k] == g[k][i];
  }

  /** A rectangular grid of `n` rows and `w > 0` columns turns into `w` rows of `n` cells. */
  lemma RotateRectangular(g: Grid, w: nat)
    requires |g| > 0 && w > 0 && Rectangular(g, w)
    ensures |Rotate(g)| == w && Rectangular(Rotate(g), |g|)
  {
    MinWidthRectangular(g, w);
  }

  /** A half turn: the rows in reverse order, each row reversed. */
  function HalfTurn(g: Grid): (h: Grid)
    ensures |h| == |g|
    ensures forall j :: 0 <= j < |g| ==> h[j] == Reverse(g[|g| - 1 - j])
  {
    Reverse(seq(|g|, j requires 0 <= j < |g| => Reverse(g[j])))
  }

  /** Two half turns restore any grid. */
  lemma HalfTurnTwice(g: Grid)
    ensures HalfTurn(HalfTurn(g)) == g
  {
    var hh := HalfTurn(HalfTurn(g));
    forall j | 0 <= j < |g|
      ensures hh[j] == g[j]
    {
      ReverseReverse(g[j]);
    }
  }

  /** Two quarter turns of a rectangular grid with at least one column make a half turn. */
  lemma RotateTwice(g: Grid, w: nat)
    requires |g| > 0 && w > 0 && Rectangular(g, w)
    ensures Rotate(Rotate(g)) == HalfTurn(g)
  {
    var rr, h := Rotate(Rotate(g)), HalfTurn(g);
    RotateTwiceRow(g, w, 0);
    forall j | 0 <= j < |g|
      ensures rr[j] == h[j]
    {
      RotateTwiceRow(g, w, j);
    }
  }

  /** Row `j` of a rectangular grid turned twice is row `n - 1 - j` reversed. */
  lemma RotateTwiceRow(g: Grid, w: nat, j: nat)
    requires |g| > 0 && w > 0 && Rectangular(g, w) && j < |g|
    ensures |Rotate(Rotate(g))| == |g|
    ensures Rotate(Rotate(g))[j] == HalfTurn(g)[j]
  {
    var r := Rotate(g);
    RotateRectangular(g, w);
    RotateRectangular(r, |g|);
    RotatedColumn(g, w, j);
  }

  /** Column `j` of a quarter-turned rectangular grid is row `n - 1 - j` of the original. */
  lemma RotatedColumn(g: Grid, w: nat, j: nat)
    requires |g| > 0 && w > 0 && Rectangular(g, w) && j < |g|
    ensures Rectangular(Rotate(g), |g|)
    ensures Column(Rotate(g), j) == g[|g| - 1 - j]
  {
    var n := |g|;
    var r := Rotate(g);
    RotateRectangular(g, w);
    var c, row := Column(r, j), g[n - 1 - j];
    assert |c| == w == |row|;
    forall i | 0 <= i < w
      ensures c[i] == row[i]
    {
      var col := Column(g, i);
      assert c[i] == r[i][j] == Reverse(col)[j] == col[n - 1 - j];
    }
  }

  /** A half turn keeps a grid rectangular. */
  lemma HalfTurnRectangular(g: Grid, w: nat)
    requires Rectangular(g, w)
    ensures Rectangular(HalfTurn(g), w)
  {
  }

  /** Four quarter turns restore a rectangular grid with at least one column. */
  lemma RotatePeriodFour(g: Grid, w: nat)
    requires |g| > 0 && w > 0 && Rectangular(g, w)
    ensures Rotate(Rotate(Rotate(Rotate(g)))) == g
  {
    RotateTwice(g, w);
    HalfTurnRectangular(g, w);
    RotateTwice(HalfTurn(g), w);
    HalfTurnTwice(g);
  }
}
