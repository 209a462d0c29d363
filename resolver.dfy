/** getMovedGrid: the four directions built from the left move (src/hooks/useGame.ts). */
module Resolver {
  import opened Board
  import opened Primitives

  datatype Dir = Left | Right | Up | Down

  /* ---------- one row ---------- */

  /** moveRow: compress, then merge; the second component lists the values reported to
      incScore, in call order. */
  function MoveRow(row: Row): (r: (Row, seq<int>))
    requires |row| == Size
    ensures |r.0| == Size
  {
    Merged(Compress(row))
  }

  /** A row moved toward its last cell: reverse, moveRow, reverse back. */
  function MoveRowBack(row: Row): (r: (Row, seq<int>))
    requires |row| == Size
    ensures |r.0| == Size
  {
    var m := MoveRow(Reverse(row));
    (Reverse(m.0), m.1)
  }

  function Slide(row: Row, back: bool): (r: (Row, seq<int>))
    requires |row| == Size
    ensures |r.0| == Size
  {
    if back then MoveRowBack(row) else MoveRow(row)
  }

  /** `rows.map(...)`: every row is moved on its own, and the reports follow row order. */
  function SlideRows(rows: seq<Row>, back: bool): (r: (seq<Row>, seq<int>))
    requires forall i :: 0 <= i < |rows| ==> |rows[i]| == Size
    ensures |r.0| == |rows|
    ensures forall i :: 0 <= i < |rows| ==> r.0[i] == Slide(rows[i], back).0
  {
    if rows == [] then ([], [])
    else
      var first := Slide(rows[0], back);
      var rest := SlideRows(rows[1..], back);
      ([first.0] + rest.0, first.1 + rest.1)
  }

  /** getMovedGrid: the grid after a move in the given direction, and the values reported to
      incScore while computing it, in call order. */
  function MovedGrid(g: Grid, dir: Dir): (r: (Grid, seq<int>))
    requires IsGrid(g)
    ensures IsGrid(r.0)
  {
    match dir
    case Left => SlideRows(g, false)
    case Right => SlideRows(g, true)
    case Up =>
      var t := SlideRows(Transpose(g), false);
      (Transpose(t.0), t.1)
    case Down =>
      var t := SlideRows(Transpose(g), true);
      (Transpose(t.0), t.1)
  }

  /** Column c of a grid, top to bottom. */
  function Column(g: Grid, c: int): (col: Row)
    requires IsGrid(g) && 0 <= c < Size
    ensures |col| == Size && forall i :: 0 <= i < Size ==> col[i] == g[i][c]
  {
    seq(Size, i requires 0 <= i < Size => g[i][c])
  }

  /** Rows and columns are processed independently: a left move is moveRow on each row, a
      right move is moveRow on each reversed row, reversed back, and up and down do the same
      on each column. */
  lemma MovedGridCells(g: Grid)
    requires IsGrid(g)
    ensures forall i :: 0 <= i < Size ==> MovedGrid(g, Left).0[i] == MoveRow(g[i]).0
    ensures forall i :: 0 <= i < Size ==> MovedGrid(g, Right).0[i] == Reverse(MoveRow(Reverse(g[i])).0)
    ensures forall i, c :: 0 <= i < Size && 0 <= c < Size ==>
      MovedGrid(g, Up).0[i][c] == MoveRow(Column(g, c)).0[i]
    ensures forall i, c :: 0 <= i < Size && 0 <= c < Size ==>
      MovedGrid(g, Down).0[i][c] == Reverse(MoveRow(Reverse(Column(g, c))).0)[i]
  {
    TransposeColumns(g);
  }

  /* ---------- conservation and score ---------- */

  /** A moved row keeps the sum of its values and loses one tile per reported merge. */
  lemma SlideTotals(row: Row, back: bool)
    requires |row| == Size
    ensures RowTotal(Slide(row, back).0, Value) == RowTotal(row, Value)
    ensures RowTotal(Slide(row, back).0, Occupied) + |Slide(row, back).1| == RowTotal(row, Occupied)
  {
    var src := if back then Reverse(row) else row;
    CompressTotal(src, Value);
    CompressTotal(src, Occupied);
    MergeConserves(Compress(src));
    if back {
      ReverseTotal(row, Value);
      ReverseTotal(row, Occupied);
      ReverseTotal(MoveRow(src).0, Value);
      ReverseTotal(MoveRow(src).0, Occupied);
    }
  }

  lemma {:induction false} SlideRowsTotals(rows: seq<Row>, back: bool)
    requires forall i :: 0 <= i < |rows| ==> |rows[i]| == Size
    ensures GridTotal(SlideRows(rows, back).0, Value) == GridTotal(rows, Value)
    ensures GridTotal(SlideRows(rows, back).0, Occupied) + |SlideRows(rows, back).1|
         == GridTotal(rows, Occupied)
  {
    if rows != [] {
      SlideTotals(rows[0], back);
      SlideRowsTotals(rows[1..], back);
      assert SlideRows(rows, back).0[1..] == SlideRows(rows[1..], back).0;
    }
  }

  /** A move conserves the sum of the tile values on the board, and the board loses exactly
      one tile per value reported to incScore. */
  lemma MovedGridConserves(g: Grid, dir: Dir)
    requires IsGrid(g)
    ensures GridTotal(MovedGrid(g, dir).0, Value) == GridTotal(g, Value)
    ensures TileCount(MovedGrid(g, dir).0) + |MovedGrid(g, dir).1| == TileCount(g)
  {
    match dir
    case Left => SlideRowsTotals(g, false);
    case Right => SlideRowsTotals(g, true);
    case Up => ColumnsConserve(g, false);
    case Down => ColumnsConserve(g, true);
  }

  /** MovedGridConserves for up and down: the columns are moved as rows of the transpose. */
  lemma ColumnsConserve(g: Grid, back: bool)
    requires IsGrid(g)
    ensures var t := SlideRows(Transpose(g), back);
            GridTotal(Transpose(t.0), Value) == GridTotal(g, Value)
            && TileCount(Transpose(t.0)) + |t.1| == TileCount(g)
  {
    var t := SlideRows(Transpose(g), back);
    SlideRowsTotals(Transpose(g), back);
    TransposeTotal(g, Value);
    TransposeTotal(g, Occupied);
    TransposeTotal(t.0, Value);
    TransposeTotal(t.0, Occupied);
  }

  lemma ReverseUnmerged(row: Row)
    requires RowUnmerged(row)
    ensures RowUnmerged(Reverse(row))
  {
    assert forall i :: 0 <= i < |row| ==> Reverse(row)[i] == row[|row| - 1 - i];
  }

  /** On a row without merged hints, the reports of a move add up to the values of the tiles
      it flags as merged. */
  lemma SlideScore(row: Row, back: bool)
    requires |row| == Size && RowUnmerged(row)
    ensures Sum(Slide(row, back).1) == RowTotal(Slide(row, back).0, MergedValue)
  {
    var src := if back then Reverse(row) else row;
    if back {
      ReverseUnmerged(row);
    }
    CompressFrom(src);
    MergeReportsMerged(Compress(src));
    if back {
      ReverseTotal(MoveRow(src).0, MergedValue);
    }
  }

  lemma {:induction false} SlideRowsScore(rows: seq<Row>, back: bool)
    requires forall i :: 0 <= i < |rows| ==> |rows[i]| == Size && RowUnmerged(rows[i])
    ensures Sum(SlideRows(rows, back).1) == GridTotal(SlideRows(rows, back).0, MergedValue)
  {
    if rows != [] {
      SlideScore(rows[0], back);
      SlideRowsScore(rows[1..], back);
      SumAppend(Slide(rows[0], back).1, SlideRows(rows[1..], back).1);
      assert SlideRows(rows, back).0[1..] == SlideRows(rows[1..], back).0;
    }
  }

  /** On a board without merged hints (every board addRandomTile returns), the score a move
      gains is the sum of the values of the tiles it merged. */
  lemma MovedGridScore(g: Grid, dir: Dir)
    requires IsGrid(g) && Unmerged(g)
    ensures Sum(MovedGrid(g, dir).1) == GridTotal(MovedGrid(g, dir).0, MergedValue)
  {
    match dir
    case Left => SlideRowsScore(g, false);
    case Right => SlideRowsScore(g, true);
    case Up => ColumnsScore(g, false);
    case Down => ColumnsScore(g, true);
  }

  /** MovedGridScore for up and down: the columns are moved as rows of the transpose. */
  lemma ColumnsScore(g: Grid, back: bool)
    requires IsGrid(g) && Unmerged(g)
    ensures var t := SlideRows(Transpose(g), back);
            Sum(t.1) == GridTotal(Transpose(t.0), MergedValue)
  {
    var t := Transpose(g);
    assert forall c :: 0 <= c < Size ==> RowUnmerged(t[c]) by {
      assert forall c, i :: 0 <= c < Size && 0 <= i < Size ==> t[c][i] == g[i][c];
    }
    SlideRowsScore(t, back);
    TransposeTotal(SlideRows(t, back).0, MergedValue);
  }

  /* ---------- the board invariant ---------- */

  lemma ReverseGood(row: Row)
    requires GoodRow(row)
    ensures GoodRow(Reverse(row))
  {
    assert forall i :: 0 <= i < |row| ==> Reverse(row)[i] == row[|row| - 1 - i];
  }

  lemma SlideGood(row: Row, back: bool)
    requires |row| == Size && GoodRow(row)
    ensures GoodRow(Slide(row, back).0)
    ensures forall k :: 0 <= k < |Slide(row, back).1| ==> Slide(row, back).1[k] >= 4
  {
    var src := if back then Reverse(row) else row;
    if back {
      ReverseGood(row);
    }
    CompressFrom(src);
    MergeGood(Compress(src));
    if back {
      ReverseGood(MoveRow(src).0);
    }
  }

  lemma {:induction false} SlideRowsGood(rows: seq<Row>, back: bool)
    requires forall i :: 0 <= i < |rows| ==> |rows[i]| == Size && GoodRow(rows[i])
    ensures forall i :: 0 <= i < |rows| ==> GoodRow(SlideRows(rows, back).0[i])
    ensures forall k :: 0 <= k < |SlideRows(rows, back).1| ==> SlideRows(rows, back).1[k] >= 4
  {
    if rows != [] {
      SlideGood(rows[0], back);
      SlideRowsGood(rows[1..], back);
      forall i | 0 <= i < |rows| ensures GoodRow(SlideRows(rows, back).0[i]) {
        SlideGood(rows[i], back);
      }
    }
  }

  /** A move keeps every tile a power of two of at least 2, and every value it reports to
      incScore is at least 4, so the score only grows. */
  lemma MovedGridGood(g: Grid, dir: Dir)
    requires GoodGrid(g)
    ensures GoodGrid(MovedGrid(g, dir).0)
    ensures forall k :: 0 <= k < |MovedGrid(g, dir).1| ==> MovedGrid(g, dir).1[k] >= 4
  {
    match dir
    case Left => SlideRowsGood(g, false);
    case Right => SlideRowsGood(g, true);
    case Up | Down =>
      var back := dir == Down;
      TransposeGood(g);
      SlideRowsGood(Transpose(g), back);
      TransposeGood(SlideRows(Transpose(g), back).0);
  }

  lemma TransposeGood(g: Grid)
    requires GoodGrid(g)
    ensures GoodGrid(Transpose(g))
  {
    var t := Transpose(g);
    forall c | 0 <= c < Size ensures GoodRow(t[c]) {
      assert forall i :: 0 <= i < Size ==> t[c][i] == g[i][c];
    }
  }

  /* ---------- unchanged moves ---------- */

  lemma SameValuesPacked(a: Row, b: Row)
    requires SameValues(a, b) && Packed(a)
    ensures Packed(b)
  {
    assert forall i :: 0 <= i < |a| ==> (a[i].None? <==> b[i].None?) by {
      assert forall i :: 0 <= i < |a| ==> Shown(a[i]) == Shown(b[i]);
    }
  }

  /** A row whose move shows the same values is returned unchanged, tile for tile, and
      nothing was reported. */
  lemma MoveRowStill(row: Row)
    requires |row| == Size && SameValues(MoveRow(row).0, row)
    ensures MoveRow(row).0 == row && MoveRow(row).1 == []
  {
    var c := Compress(row);
    MergeConserves(c);
    CompressTotal(row, Occupied);
    SameValuesCount(MoveRow(row).0, row);
    MergeQuiet(c);
    SameValuesPacked(c, row);
    CompressPacked(row);
  }

  lemma SameValuesReverse(a: Row, b: Row)
    requires SameValues(Reverse(a), b)
    ensures SameValues(a, Reverse(b))
  {
    forall i | 0 <= i < |a| ensures Shown(a[i]) == Shown(Reverse(b)[i]) {
      assert Reverse(a)[|a| - 1 - i] == a[i];
    }
  }

  lemma SlideStill(row: Row, back: bool)
    requires |row| == Size && SameValues(Slide(row, back).0, row)
    ensures Slide(row, back).0 == row && Slide(row, back).1 == []
  {
    if back {
      SameValuesReverse(MoveRow(Reverse(row)).0, row);
      MoveRowStill(Reverse(row));
      ReverseInvolution(row);
    } else {
      MoveRowStill(row);
    }
  }

  lemma {:induction false} SlideRowsStill(rows: seq<Row>, back: bool)
    requires forall i :: 0 <= i < |rows| ==> |rows[i]| == Size
    requires SameGridValues(SlideRows(rows, back).0, rows)
    ensures SlideRows(rows, back).0 == rows && SlideRows(rows, back).1 == []
  {
    if rows != [] {
      var r := SlideRows(rows, back);
      SlideStill(rows[0], back);
      assert r.0[1..] == SlideRows(rows[1..], back).0;
      assert SameGridValues(SlideRows(rows[1..], back).0, rows[1..]) by {
        assert forall i :: 0 <= i < |rows| - 1 ==> rows[1..][i] == rows[i + 1];
      }
      SlideRowsStill(rows[1..], back);
      assert r.0 == [r.0[0]] + r.0[1..];
    }
  }

  /** Comparing the moved grid with the current one cell by cell on values alone decides the
      same as comparing whole tiles (the JSON.stringify test); an unchanged grid reported no
      merge, so a rejected move gains no score. */
  lemma MovedGridNoOp(g: Grid, dir: Dir)
    requires IsGrid(g)
    ensures SameGridValues(MovedGrid(g, dir).0, g) <==> MovedGrid(g, dir).0 == g
    ensures MovedGrid(g, dir).0 == g ==> MovedGrid(g, dir).1 == []
  {
    var r := MovedGrid(g, dir);
    if SameGridValues(r.0, g) {
      match dir
      case Left => SlideRowsStill(g, false);
      case Right => SlideRowsStill(g, true);
      case Up | Down =>
        var back := dir == Down;
        var t := Transpose(g);
        var s := SlideRows(t, back).0;
        assert SameGridValues(s, t) by {
          forall c | 0 <= c < Size ensures SameValues(s[c], t[c]) {
            forall i | 0 <= i < Size ensures Shown(s[c][i]) == Shown(t[c][i]) {
              assert s[c][i] == r.0[i][c];
              assert SameValues(r.0[i], g[i]);
            }
          }
        }
        SlideRowsStill(t, back);
        TransposeInvolution(g);
    }
  }

  /** A moved row with no empty cell is the row itself, with nothing reported. */
  lemma MoveRowFull(row: Row)
    requires |row| == Size && FullRow(MoveRow(row).0)
    ensures MoveRow(row).0 == row && MoveRow(row).1 == []
  {
    var c := Compress(row);
    var m := MoveRow(row);
    MergeConserves(c);
    CompressTotal(row, Occupied);
    TilesFull(m.0);
    TilesCount(m.0);
    TilesCount(row);
    TilesFull(row);
    MergeQuiet(c);
    CompressPacked(row);
  }

  lemma SlideFull(row: Row, back: bool)
    requires |row| == Size && FullRow(Slide(row, back).0)
    ensures Slide(row, back).0 == row && Slide(row, back).1 == []
  {
    if back {
      var m := MoveRow(Reverse(row)).0;
      assert FullRow(m) by {
        assert forall i :: 0 <= i < Size ==> m[i] == Reverse(m)[Size - 1 - i];
      }
      MoveRowFull(Reverse(row));
      ReverseInvolution(row);
    } else {
      MoveRowFull(row);
    }
  }

  lemma {:induction false} SlideRowsFull(rows: seq<Row>, back: bool)
    requires forall i :: 0 <= i < |rows| ==> |rows[i]| == Size
    requires forall i :: 0 <= i < |rows| ==> FullRow(SlideRows(rows, back).0[i])
    ensures SlideRows(rows, back).0 == rows && SlideRows(rows, back).1 == []
  {
    if rows != [] {
      var r := SlideRows(rows, back);
      SlideFull(rows[0], back);
      assert r.0[1..] == SlideRows(rows[1..], back).0;
      SlideRowsFull(rows[1..], back);
      assert r.0 == [r.0[0]] + r.0[1..];
    }
  }

  /** A move that leaves no empty cell changed nothing; so whenever a move is accepted,
      addRandomTile finds an empty cell to fill. */
  lemma MovedGridFull(g: Grid, dir: Dir)
    requires IsGrid(g) && Full(MovedGrid(g, dir).0)
    ensures MovedGrid(g, dir).0 == g && MovedGrid(g, dir).1 == []
  {
    var r := MovedGrid(g, dir);
    match dir
    case Left => SlideRowsFull(g, false);
    case Right => SlideRowsFull(g, true);
    case Up | Down =>
      var back := dir == Down;
      var t := Transpose(g);
      FullColumns(SlideRows(t, back).0);
      SlideRowsFull(t, back);
      TransposeInvolution(g);
  }

  /** The rows of a grid whose transpose is full are full. */
  lemma FullColumns(s: Grid)
    requires IsGrid(s) && Full(Transpose(s))
    ensures forall c :: 0 <= c < Size ==> FullRow(s[c])
  {
    var t := Transpose(s);
    forall c | 0 <= c < Size ensures FullRow(s[c]) {
      assert forall i :: 0 <= i < Size ==> s[c][i] == t[i][c];
    }
  }

  /* ---------- game over ---------- */

  /** A full row whose move changes nothing has no two equal neighbours. */
  lemma StillRowHasNoTwins(row: Row)
    requires |row| == Size && FullRow(row) && MoveRow(row).0 == row
    ensures forall i :: 0 <= i < Size - 1 ==> !SameValue(row[i], row[i + 1])
  {
    CompressPacked(row);
    MergeConserves(row);
    MergeQuiet(row);
  }

  /** A full row without two equal neighbours does not move in either direction. */
  lemma RowWithoutTwinsStill(row: Row)
    requires |row| == Size && FullRow(row)
    requires forall i :: 0 <= i < Size - 1 ==> !SameValue(row[i], row[i + 1])
    ensures Slide(row, false).0 == row && Slide(row, true).0 == row
  {
    CompressPacked(row);
    MergeQuiet(row);
    var rev := Reverse(row);
    assert FullRow(rev);
    assert forall i :: 0 <= i < Size - 1 ==> !SameValue(rev[i], rev[i + 1]) by {
      forall i | 0 <= i < Size - 1 ensures !SameValue(rev[i], rev[i + 1]) {
        assert rev[i] == row[Size - 1 - i] && rev[i + 1] == row[Size - 2 - i];
        assert !SameValue(row[Size - 2 - i], row[Size - 1 - i]);
      }
    }
    CompressPacked(rev);
    MergeQuiet(rev);
    ReverseInvolution(row);
  }

  /** The rows of the transpose are the columns. */
  lemma TransposeColumns(g: Grid)
    requires IsGrid(g)
    ensures forall c :: 0 <= c < Size ==> Transpose(g)[c] == Column(g, c)
  {
    var t := Transpose(g);
    forall c | 0 <= c < Size ensures t[c] == Column(g, c) {
      assert forall i :: 0 <= i < Size ==> t[c][i] == Column(g, c)[i];
    }
  }

  /** A finished grid does not move in any direction. */
  lemma GameOverStuck(g: Grid)
    requires IsGrid(g) && GameOver(g)
    ensures Full(g) && MovedGrid(g, Left).0 == g && MovedGrid(g, Right).0 == g
    ensures MovedGrid(g, Up).0 == g && MovedGrid(g, Down).0 == g
  {
    RowsStill(g);
    ColumnsStill(g);
  }

  /** On a lost board both row directions leave every row as it is. */
  lemma RowsStill(g: Grid)
    requires IsGrid(g) && GameOver(g)
    ensures Full(g) && SlideRows(g, false).0 == g && SlideRows(g, true).0 == g
  {
    var l := SlideRows(g, false).0;
    var r := SlideRows(g, true).0;
    forall i | 0 <= i < Size ensures l[i] == g[i] && r[i] == g[i] {
      LostRowStill(g, i);
    }
    assert l == g;
    assert r == g;
  }

  /** On a lost board both row directions leave row i as it is. */
  lemma LostRowStill(g: Grid, i: int)
    requires IsGrid(g) && GameOver(g) && 0 <= i < Size
    ensures Slide(g[i], false).0 == g[i] && Slide(g[i], true).0 == g[i]
  {
    forall j | 0 <= j < Size - 1 ensures !SameValue(g[i][j], g[i][j + 1]) {
      assert !RightTwin(g, i, j);
    }
    RowWithoutTwinsStill(g[i]);
  }

  /** On a lost board both column directions leave every column as it is. */
  lemma ColumnsStill(g: Grid)
    requires IsGrid(g) && GameOver(g)
    ensures MovedGrid(g, Up).0 == g && MovedGrid(g, Down).0 == g
  {
    var t := Transpose(g);
    TransposeInvolution(g);
    var l := SlideRows(t, false).0;
    var r := SlideRows(t, true).0;
    forall c | 0 <= c < Size ensures l[c] == t[c] && r[c] == t[c] {
      LostColumnStill(g, c);
    }
    assert l == t;
    assert r == t;
  }

  /** On a lost board both column directions leave column c as it is. */
  lemma LostColumnStill(g: Grid, c: int)
    requires IsGrid(g) && GameOver(g) && 0 <= c < Size
    ensures Slide(Transpose(g)[c], false).0 == Transpose(g)[c]
    ensures Slide(Transpose(g)[c], true).0 == Transpose(g)[c]
  {
    var t := Transpose(g);
    forall j | 0 <= j < Size - 1 ensures !SameValue(t[c][j], t[c][j + 1]) {
      assert !BelowTwin(g, j, c);
    }
    RowWithoutTwinsStill(t[c]);
  }


  /** A full grid that moves neither left nor up is finished. */
  lemma StuckGameOver(g: Grid)
    requires IsGrid(g) && Full(g) && MovedGrid(g, Left).0 == g && MovedGrid(g, Up).0 == g
    ensures GameOver(g)
  {
    forall i, j | 0 <= i < Size && 0 <= j < Size ensures !RightTwin(g, i, j) {
      assert MoveRow(g[i]).0 == g[i] by {
        assert MovedGrid(g, Left).0[i] == g[i];
      }
      StillRowHasNoTwins(g[i]);
    }
    var t := Transpose(g);
    assert SlideRows(t, false).0 == t by {
      assert Transpose(SlideRows(t, false).0) == g;
      TransposeInvolution(SlideRows(t, false).0);
    }
    forall i, j | 0 <= i < Size && 0 <= j < Size ensures !BelowTwin(g, i, j) {
      assert MoveRow(t[j]).0 == t[j];
      StillRowHasNoTwins(t[j]);
      assert i < Size - 1 ==> t[j][i] == g[i][j] && t[j][i + 1] == g[i + 1][j];
    }
  }

  /** checkGameOver's rule is the rule of the game: a grid is over exactly when it is full
      and none of the four moves changes it. */
  lemma GameOverIffStuck(g: Grid)
    requires IsGrid(g)
    ensures GameOver(g) <==>
      Full(g) && MovedGrid(g, Left).0 == g && MovedGrid(g, Right).0 == g
      && MovedGrid(g, Up).0 == g && MovedGrid(g, Down).0 == g
  {
    if GameOver(g) {
      GameOverStuck(g);
    }
    if Full(g) && MovedGrid(g, Left).0 == g && MovedGrid(g, Up).0 == g {
      StuckGameOver(g);
    }
  }

  /** A full board of alternating 2s and 4s is over. */
  lemma CheckerboardIsOver()
    ensures var a, b := Some(Tile(2, false, false)), Some(Tile(4, false, false));
            GameOver([[a, b, a, b], [b, a, b, a], [a, b, a, b], [b, a, b, a]])
  {
  }
}
