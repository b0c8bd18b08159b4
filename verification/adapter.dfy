/**
 The grid adapter (`make_grid_transform`): text is read as a grid, a grid operation is
 applied, and the result is written back as text in the layout the input was read with.
 The layout is guessed from two switches: a tab anywhere means tab-separated cells
 (otherwise every character is a cell), and a CRLF anywhere means CRLF line breaks
 (otherwise LF). `transpose` and `rotate` are the two text transforms built with it.
 */
module GridAdapter {
  import opened Text
  import opened Grid

  datatype Newline = Lf | CrLf
  {
    /** The terminator text: it always ends with LF, and only CRLF has a CR before it. */
    function Text(): (s: string)
      ensures |s| > 0 && s[|s| - 1] == '\n'
      ensures CrLf? <==> |s| == 2 && s[0] == '\r'
      ensures Lf? <==> |s| == 1
    {
      if Lf? then LF else CRLF
    }
  }

  /** How a text is cut into a grid: cell delimiter and line terminator. */
  datatype Layout = Layout(tabbed: bool, newline: Newline)
  {
    /** The string cells are joined with: a tab in tab mode, nothing in character mode. */
    function Delimiter(): string
    {
      if tabbed then TAB else ""
    }
  }

  /** One character per cell, LF line breaks: the layout of text with no tab and no CRLF. */
  const CharLines := Layout(false, Lf)

  /** Layout detection: the two switches, each read off the whole input. */
  function DetectLayout(data: string): (m: Layout)
    ensures m.tabbed <==> '\t' in data
    ensures m.newline == CrLf <==>
      exists i :: 0 <= i < |data| - 1 && data[i] == '\r' && data[i + 1] == '\n'
  {
    Layout('\t' in data, if ContainsCrlf(data) then CrLf else Lf)
  }

  /**
   One line to its cells: `l.split('\t')` in tab mode, where there is at least one cell
   and no cell holds a tab, and `list(l)` otherwise, one cell per character.
   */
  function ParseRow(line: string, tabbed: bool): (r: Row)
    ensures tabbed ==> |r| >= 1 && forall i :: 0 <= i < |r| ==> '\t' !in r[i]
    ensures !tabbed ==> |r| == |line| && forall i :: 0 <= i < |r| ==> r[i] == [line[i]]
  {
    if tabbed then Split(line, TAB) else Cells(line)
  }

  /** The text as a grid: split into lines on the terminator, then each line into cells. */
  function Parse(data: string, m: Layout): (g: Grid)
    ensures |g| == |Split(data, m.newline.Text())| >= 1
  {
    var lines := Split(data, m.newline.Text());
    seq(|lines|, k requires 0 <= k < |lines| => ParseRow(lines[k], m.tabbed))
  }

  /**
   The grid as text: cells joined with the delimiter, rows joined with the terminator. No
   rows give the empty text, and the text opens with the first row's cells.
   */
  function Serialise(g: Grid, m: Layout): (r: string)
    ensures |g| == 0 ==> r == ""
    ensures |g| >= 1 ==> Join(g[0], m.Delimiter()) <= r
  {
    Join(seq(|g|, k requires 0 <= k < |g| => Join(g[k], m.Delimiter())), m.newline.Text())
  }

  /**
   The text transform `make_grid_transform(op)`. An operation that leaves the grid read
   from the text as it is leaves the text as it is.
   */
  function ApplyGrid(op: Grid -> Grid, data: string): (r: string)
    ensures op(Parse(data, DetectLayout(data))) == Parse(data, DetectLayout(data)) ==> r == data
  {
    var m := DetectLayout(data);
    SerialiseParse(data, m);
    Serialise(op(Parse(data, m)), m)
  }

  /**
   The `transpose` transform. Text with no tab and no CR, read one character per cell,
   comes out with no tab and no CR either.
   */
  function TransposeText(data: string): (r: string)
    ensures '\t' !in data && '\r' !in data ==> '\t' !in r && '\r' !in r
  {
    if '\t' !in data && '\r' !in data then
      PlainText(data);
      TransposePlain(Parse(data, CharLines));
      PlainCellsText(Transpose(Parse(data, CharLines)));
      ApplyGrid(Transpose, data)
    else
      ApplyGrid(Transpose, data)
  }

  /**
   The `rotate` transform. Text with no tab and no CR, read one character per cell,
   comes out with no tab and no CR either.
   */
  function RotateText(data: string): (r: string)
    ensures '\t' !in data && '\r' !in data ==> '\t' !in r && '\r' !in r
  {
    if '\t' !in data && '\r' !in data then
      PlainText(data);
      RotatePlain(Parse(data, CharLines));
      PlainCellsText(Rotate(Parse(data, CharLines)));
      ApplyGrid(Rotate, data)
    else
      ApplyGrid(Rotate, data)
  }

  /** A grid of plain cells, with any number of rows, is written with no tab and no CR. */
  lemma PlainCellsText(h: Grid)
    requires forall j, i :: 0 <= j < |h| && 0 <= i < |h[j]| ==> PlainCell(h[j][i])
    ensures '\t' !in Serialise(h, CharLines) && '\r' !in Serialise(h, CharLines)
  {
    if |h| >= 1 {
      PlainGridText(h, '\t');
      PlainGridText(h, '\r');
    }
  }

  /** Writing a row back gives the line it was read from, in either cell mode. */
  lemma JoinParseRow(line: string, tabbed: bool)
    ensures Join(ParseRow(line, tabbed), if tabbed then TAB else "") == line
  {
    if !tabbed {
      JoinCells(line);
    }
  }

  /** Parsing then serialising with the same layout gives back the text, for every layout. */
  lemma SerialiseParse(data: string, m: Layout)
    ensures Serialise(Parse(data, m), m) == data
  {
    var lines := Split(data, m.newline.Text());
    var g := Parse(data, m);
    var rows := seq(|g|, k requires 0 <= k < |g| => Join(g[k], m.Delimiter()));
    forall k | 0 <= k < |lines|
      ensures rows[k] == lines[k]
    {
      JoinParseRow(lines[k], m.tabbed);
    }
    assert rows == lines;
  }

  /** With the identity grid operation the adapter returns its input unchanged. */
  lemma IdentityRoundTrip(data: string)
    ensures ApplyGrid(g => g, data) == data
  {
    SerialiseParse(data, DetectLayout(data));
  }

  /** A cell that character mode with LF lines reads back unchanged: one character, no tab, CR or LF. */
  predicate PlainCell(c: string)
  {
    |c| == 1 && c[0] != '\t' && c[0] != '\r' && c[0] != '\n'
  }

  /** At least one row, every cell plain: exactly the grids `CharLines` text round-trips. */
  predicate PlainGrid(h: Grid)
  {
    |h| >= 1 && forall j, i :: 0 <= j < |h| && 0 <= i < |h[j]| ==> PlainCell(h[j][i])
  }

  /** A row of plain cells is written as a line free of tabs, CRs and LFs. */
  lemma {:induction false} PlainRowLine(row: Row, c: char)
    requires forall i :: 0 <= i < |row| ==> PlainCell(row[i])
    requires c == '\t' || c == '\r' || c == '\n'
    ensures c !in Join(row, "")
    decreases |row|
  {
    if |row| >= 1 {
      assert row[0] == [row[0][0]];
    }
    if |row| >= 2 {
      PlainRowLine(row[1..], c);
      assert Join(row, "") == row[0] + Join(row[1..], "");
    }
  }

  /** A plain grid is written as text with no tab and no CR. */
  lemma PlainGridText(h: Grid, c: char)
    requires PlainGrid(h)
    requires c == '\t' || c == '\r'
    ensures c !in Serialise(h, CharLines)
  {
    var rows := seq(|h|, k requires 0 <= k < |h| => Join(h[k], ""));
    forall k | 0 <= k < |h|
      ensures c !in rows[k]
    {
      PlainRowLine(h[k], c);
    }
    JoinChars(rows, LF, c);
  }

  /** A plain grid written as text reads back as itself, and in the same layout. */
  lemma ParseSerialise(h: Grid)
    requires PlainGrid(h)
    ensures DetectLayout(Serialise(h, CharLines)) == CharLines
    ensures Parse(Serialise(h, CharLines), CharLines) == h
  {
    var data := Serialise(h, CharLines);
    PlainGridText(h, '\t');
    PlainGridText(h, '\r');
    assert !ContainsCrlf(data);
    var rows := seq(|h|, k requires 0 <= k < |h| => Join(h[k], ""));
    forall k | 0 <= k < |h|
      ensures '\n' !in rows[k]
    {
      PlainRowLine(h[k], '\n');
    }
    SplitJoin(rows, '\n');
    var g := Parse(data, CharLines);
    forall k | 0 <= k < |h|
      ensures g[k] == h[k]
    {
      assert forall i :: 0 <= i < |h[k]| ==> PlainCell(h[k][i]);
      CellsJoin(h[k]);
    }
  }

  /** Running a grid transform on text written from a plain grid runs it on that grid. */
  lemma ApplySerialised(op: Grid -> Grid, h: Grid)
    requires PlainGrid(h)
    ensures ApplyGrid(op, Serialise(h, CharLines)) == Serialise(op(h), CharLines)
  {
    ParseSerialise(h);
  }

  /** A line of the input holding no LF, no tab and no CR is cut into plain cells. */
  lemma PlainLineCells(line: string)
    requires '\t' !in line && '\r' !in line && '\n' !in line
    ensures forall i :: 0 <= i < |Cells(line)| ==> PlainCell(Cells(line)[i])
  {
  }

  /** Text with no tab and no CR is read in `CharLines` layout as a plain grid. */
  lemma PlainText(data: string)
    requires '\t' !in data && '\r' !in data
    ensures DetectLayout(data) == CharLines
    ensures PlainGrid(Parse(data, CharLines))
  {
    assert !ContainsCrlf(data);
    var lines := Split(data, LF);
    var g := Parse(data, CharLines);
    forall k | 0 <= k < |lines|
      ensures forall i :: 0 <= i < |g[k]| ==> PlainCell(g[k][i])
    {
      JoinChars(lines, LF, '\t');
      JoinChars(lines, LF, '\r');
      assert '\t' !in lines[k] && '\r' !in lines[k] && '\n' !in lines[k];
      PlainLineCells(lines[k]);
    }
  }

  /** The cells of a transpose are cells of the input, so plain cells stay plain. */
  lemma TransposePlain(h: Grid)
    requires forall j, i :: 0 <= j < |h| && 0 <= i < |h[j]| ==> PlainCell(h[j][i])
    ensures forall i, j :: 0 <= i < |Transpose(h)| && 0 <= j < |Transpose(h)[i]| ==>
      PlainCell(Transpose(h)[i][j])
  {
  }

  /**
   Text-level involution: on text with no tab and no CR whose lines all have the same
   non-zero length, `transpose` applied twice returns the text.
   */
  lemma TransposeTextInvolution(data: string, w: nat)
    requires '\t' !in data && '\r' !in data
    requires w > 0
    requires forall k :: 0 <= k < |Split(data, LF)| ==> |Split(data, LF)[k]| == w
    ensures TransposeText(TransposeText(data)) == data
  {
    PlainText(data);
    var g := Parse(data, CharLines);
    assert Rectangular(g, w);
    TransposeRectangular(g, w);
    TransposePlain(g);
    var t := Transpose(g);
    ApplySerialised(Transpose, t);
    TransposeInvolution(g, w);
    SerialiseParse(data, CharLines);
  }

  /** The cells of a quarter turn are cells of the input, so plain cells stay plain. */
  lemma RotatePlain(h: Grid)
    requires forall j, i :: 0 <= j < |h| && 0 <= i < |h[j]| ==> PlainCell(h[j][i])
    ensures forall i, j :: 0 <= i < |Rotate(h)| && 0 <= j < |Rotate(h)[i]| ==>
      PlainCell(Rotate(h)[i][j])
  {
  }

  /** One `rotate` step on text written from a plain rectangular grid. */
  lemma RotateTextStep(h: Grid, w: nat)
    requires PlainGrid(h) && w > 0 && Rectangular(h, w)
    ensures RotateText(Serialise(h, CharLines)) == Serialise(Rotate(h), CharLines)
    ensures PlainGrid(Rotate(h)) && Rectangular(Rotate(h), |h|) && |Rotate(h)| == w
  {
    ApplySerialised(Rotate, h);
    RotateRectangular(h, w);
    RotatePlain(h);
  }

  /**
   Text-level period four: on text with no tab and no CR whose lines all have the same
   non-zero length, `rotate` applied four times returns the text.
   */
  lemma RotateTextPeriodFour(data: string, w: nat)
    requires '\t' !in data && '\r' !in data
    requires w > 0
    requires forall k :: 0 <= k < |Split(data, LF)| ==> |Split(data, LF)[k]| == w
    ensures RotateText(RotateText(RotateText(RotateText(data)))) == data
  {
    PlainText(data);
    var g := Parse(data, CharLines);
    var n := |g|;
    assert Rectangular(g, w);
    SerialiseParse(data, CharLines);
    RotateTextStep(g, w);
    var r1 := Rotate(g);
    RotateTextStep(r1, n);
    var r2 := Rotate(r1);
    RotateTextStep(r2, w);
    var r3 := Rotate(r2);
    RotateTextStep(r3, n);
    RotatePeriodFour(g, w);
  }
}
