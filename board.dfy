/** Cells, rows and grids of the 2048 board (TileData and GridType in the hook), and the
    per-cell totals the move engine conserves. */
module Board {

  datatype Option<T> = None | Some(value: T)

  /** A numbered piece. `isNew` and `merged` are the per-move view hints the hook keeps on
      each tile; an absent flag in the source reads as `false` here. */
  datatype Tile = Tile(value: int, isNew: bool, merged: bool)

  /** A cell is empty (`null`) or holds a tile. */
  type Cell = Option<Tile>
  type Row = seq<Cell>
  type Grid = seq<Row>

  /** GRID_SIZE: the board is Size by Size. */
  const Size: nat := 4

  /** The value 2048 whose appearance wins the game. */
  const Goal: int := 2048

  /** Both cells hold a tile and the two tiles show the same value. */
  predicate SameValue(a: Cell, b: Cell) {
    a.Some? && b.Some? && a.value.value == b.value.value
  }

  /** The value a cell shows, with its transient flags dropped. */
  function Shown(c: Cell): Option<int> {
    if c.Some? then Some(c.value.value) else None
  }

  /** Two rows show the same values cell by cell (flags ignored). */
  predicate SameValues(a: Row, b: Row) {
    |a| == |b| && forall i :: 0 <= i < |a| ==> Shown(a[i]) == Shown(b[i])
  }

  /** Two grids show the same values cell by cell (flags ignored). */
  predicate SameGridValues(g: Grid, h: Grid) {
    |g| == |h| && forall i :: 0 <= i < |g| ==> SameValues(g[i], h[i])
  }

  predicate IsPowerOfTwo(v: int)
    decreases v
  {
    v == 1 || (v > 1 && v % 2 == 0 && IsPowerOfTwo(v / 2))
  }

  /** Every tile the game produces shows 2, 4, 8, ... */
  predicate GoodCell(c: Cell) {
    c.None? || (c.value.value >= 2 && IsPowerOfTwo(c.value.value))
  }

  predicate GoodRow(row: Row) {
    forall i :: 0 <= i < |row| ==> GoodCell(row[i])
  }

  predicate IsGrid(g: Grid) {
    |g| == Size && forall i :: 0 <= i < |g| ==> |g[i]| == Size
  }

  /** The board invariant: 4 by 4, every tile a power of two of at least 2. */
  predicate GoodGrid(g: Grid) {
    IsGrid(g) && forall i :: 0 <= i < |g| ==> GoodRow(g[i])
  }

  /** No tile of the row carries the `merged` hint. */
  predicate RowUnmerged(row: Row) {
    forall i :: 0 <= i < |row| ==> row[i].Some? ==> !row[i].value.merged
  }

  predicate Unmerged(g: Grid) {
    forall i :: 0 <= i < |g| ==> RowUnmerged(g[i])
  }

  /** Every cell of the grid holds a tile. */
  predicate Full(g: Grid)
    requires IsGrid(g)
  {
    forall r, c :: 0 <= r < Size && 0 <= c < Size ==> g[r][c].Some?
  }

  /** Some tile of the grid shows the value v. */
  predicate Shows(g: Grid, v: int) {
    exists i, j :: 0 <= i < |g| && 0 <= j < |g[i]| && g[i][j].Some? && g[i][j].value.value == v
  }

  /** Every cell of the row holds a tile. */
  predicate FullRow(row: Row) {
    forall i :: 0 <= i < |row| ==> row[i].Some?
  }

  /** Once a cell is empty, every cell after it is empty too. */
  predicate Packed(row: Row) {
    forall i, j :: 0 <= i < j < |row| && row[i].None? ==> row[j].None?
  }

  /** The tiles of a row in order, gaps dropped (`row.filter(tile => tile !== null)`). */
  function Tiles(row: Row): (ts: seq<Tile>)
    ensures |ts| <= |row|
  {
    if row == [] then []
    else (if row[0].Some? then [row[0].value] else []) + Tiles(row[1..])
  }

  /** The values of a sequence of tiles. */
  function Values(ts: seq<Tile>): (vs: seq<int>)
    ensures |vs| == |ts| && forall i :: 0 <= i < |ts| ==> vs[i] == ts[i].value
  {
    seq(|ts|, i requires 0 <= i < |ts| => ts[i].value)
  }

  /** The values of the tiles that carry the `merged` hint, in order. */
  function MergedValues(ts: seq<Tile>): seq<int> {
    if ts == [] then []
    else (if ts[0].merged then [ts[0].value] else []) + MergedValues(ts[1..])
  }

  /** A row holding exactly the given tiles, in order. */
  function Lift(ts: seq<Tile>): (r: Row)
    ensures |r| == |ts| && forall i :: 0 <= i < |ts| ==> r[i] == Some(ts[i])
  {
    seq(|ts|, i requires 0 <= i < |ts| => Some(ts[i]))
  }

  /** A row of n empty cells. */
  function Empties(n: nat): (r: Row)
    ensures |r| == n && forall i :: 0 <= i < n ==> r[i].None?
  {
    seq(n, _ => None)
  }

  function Sum(xs: seq<int>): int {
    if xs == [] then 0 else xs[0] + Sum(xs[1..])
  }

  /** Per-cell weights: the value shown, one per tile, and the value of a merged tile. */
  function Value(c: Cell): int { if c.Some? then c.value.value else 0 }
  function Occupied(c: Cell): int { if c.Some? then 1 else 0 }
  function MergedValue(c: Cell): int { if c.Some? && c.value.merged then c.value.value else 0 }

  /** The sum of a per-cell weight over a row. */
  function RowTotal(row: Row, w: Cell -> int): int {
    if row == [] then 0 else w(row[0]) + RowTotal(row[1..], w)
  }

  /** The sum of a per-cell weight over a grid. */
  function GridTotal(g: Grid, w: Cell -> int): int {
    if g == [] then 0 else RowTotal(g[0], w) + GridTotal(g[1..], w)
  }

  /** The number of tiles on a grid. */
  function TileCount(g: Grid): int {
    GridTotal(g, Occupied)
  }

  lemma {:induction false} SumAppend(a: seq<int>, b: seq<int>)
    ensures Sum(a + b) == Sum(a) + Sum(b)
  {
    if a == [] {
      assert a + b == b;
    } else {
      assert (a + b)[1..] == a[1..] + b;
      SumAppend(a[1..], b);
    }
  }

  lemma {:induction false} TilesAppend(a: Row, b: Row)
    ensures Tiles(a + b) == Tiles(a) + Tiles(b)
  {
    if a == [] {
      assert a + b == b;
    } else {
      var head := if a[0].Some? then [a[0].value] else [];
      assert (a + b)[0] == a[0];
      assert (a + b)[1..] == a[1..] + b;
      TilesAppend(a[1..], b);
      assert Tiles(a + b) == head + (Tiles(a[1..]) + Tiles(b));
      assert head + (Tiles(a[1..]) + Tiles(b)) == (head + Tiles(a[1..])) + Tiles(b);
    }
  }

  lemma {:induction false} MergedValuesAppend(a: seq<Tile>, b: seq<Tile>)
    ensures MergedValues(a + b) == MergedValues(a) + MergedValues(b)
  {
    if a == [] {
      assert a + b == b;
    } else {
      var head := if a[0].merged then [a[0].value] else [];
      assert (a + b)[0] == a[0];
      assert (a + b)[1..] == a[1..] + b;
      assert MergedValues(a + b) == head + MergedValues(a[1..] + b);
      MergedValuesAppend(a[1..], b);
      assert MergedValues(a) == head + MergedValues(a[1..]);
    }
  }

  lemma {:induction false} RowTotalAppend(a: Row, b: Row, w: Cell -> int)
    ensures RowTotal(a + b, w) == RowTotal(a, w) + RowTotal(b, w)
  {
    if a == [] {
      assert a + b == b;
    } else {
      assert (a + b)[1..] == a[1..] + b;
      RowTotalAppend(a[1..], b, w);
    }
  }

  lemma {:induction false} GridTotalAppend(a: Grid, b: Grid, w: Cell -> int)
    ensures GridTotal(a + b, w) == GridTotal(a, w) + GridTotal(b, w)
  {
    if a == [] {
      assert a + b == b;
    } else {
      assert (a + b)[1..] == a[1..] + b;
      GridTotalAppend(a[1..], b, w);
    }
  }

  /** A row holds no tile exactly when every cell is empty. */
  lemma {:induction false} TilesEmptyIff(row: Row)
    ensures Tiles(row) == [] <==> forall i :: 0 <= i < |row| ==> row[i].None?
  {
    if row != [] {
      TilesEmptyIff(row[1..]);
      if Tiles(row) == [] {
        forall i | 0 <= i < |row| ensures row[i].None? {
          if i > 0 { assert row[i] == row[1..][i - 1]; }
        }
      }
      if forall i :: 0 <= i < |row| ==> row[i].None? {
        assert forall i :: 0 <= i < |row[1..]| ==> row[1..][i] == row[i + 1];
      }
    }
  }

  lemma {:induction false} TilesLift(ts: seq<Tile>)
    ensures Tiles(Lift(ts)) == ts
  {
    if ts != [] {
      assert Lift(ts)[1..] == Lift(ts[1..]);
      TilesLift(ts[1..]);
    }
  }

  lemma TilesEmpties(n: nat)
    ensures Tiles(Empties(n)) == []
  {
    TilesEmptyIff(Empties(n));
  }

  /** A row is full exactly when it has as many tiles as cells. */
  lemma {:induction false} TilesFull(row: Row)
    ensures FullRow(row) <==> |Tiles(row)| == |row|
  {
    if row != [] {
      assert FullRow(row) <==> row[0].Some? && FullRow(row[1..]) by {
        assert forall i :: 0 <= i < |row[1..]| ==> row[1..][i] == row[i + 1];
        assert forall i :: 1 <= i < |row| ==> row[i] == row[1..][i - 1];
      }
      TilesFull(row[1..]);
    }
  }

  /** The number of tiles of a row is its Occupied total. */
  lemma {:induction false} TilesCount(row: Row)
    ensures |Tiles(row)| == RowTotal(row, Occupied)
  {
    if row != [] {
      TilesCount(row[1..]);
    }
  }

  /** The merged total of a row is the sum of the merged tiles' values, in order. */
  lemma {:induction false} MergedTotal(row: Row)
    ensures Sum(MergedValues(Tiles(row))) == RowTotal(row, MergedValue)
  {
    if row != [] {
      MergedTotal(row[1..]);
      var head := if row[0].Some? then [row[0].value] else [];
      MergedValuesAppend(head, Tiles(row[1..]));
      SumAppend(MergedValues(head), MergedValues(Tiles(row[1..])));
    }
  }

  /** Any weight that ignores empty cells sums the same over a row and over its tiles alone. */
  lemma {:induction false} TotalOfTiles(row: Row, w: Cell -> int)
    requires w(None) == 0
    ensures RowTotal(row, w) == RowTotal(Lift(Tiles(row)), w)
  {
    if row != [] {
      TotalOfTiles(row[1..], w);
      var head := if row[0].Some? then [row[0].value] else [];
      assert Lift(head + Tiles(row[1..])) == Lift(head) + Lift(Tiles(row[1..]));
      RowTotalAppend(Lift(head), Lift(Tiles(row[1..])), w);
    }
  }

  lemma {:induction false} TotalOfEmpties(n: nat, w: Cell -> int)
    requires w(None) == 0
    ensures RowTotal(Empties(n), w) == 0
  {
    if n > 0 {
      assert Empties(n)[1..] == Empties(n - 1);
      TotalOfEmpties(n - 1, w);
    }
  }

  /** Rows showing the same values hold the same number of tiles. */
  lemma {:induction false} SameValuesCount(a: Row, b: Row)
    requires SameValues(a, b)
    ensures RowTotal(a, Occupied) == RowTotal(b, Occupied)
  {
    if a != [] {
      assert Shown(a[0]) == Shown(b[0]);
      assert SameValues(a[1..], b[1..]) by {
        forall i | 0 <= i < |a[1..]| ensures Shown(a[1..][i]) == Shown(b[1..][i]) {
          assert a[1..][i] == a[i + 1] && b[1..][i] == b[i + 1];
        }
      }
      SameValuesCount(a[1..], b[1..]);
    }
  }

  /** Replacing one cell changes a row total by the difference of the two weights. */
  lemma {:induction false} RowTotalUpdate(row: Row, j: nat, x: Cell, w: Cell -> int)
    requires j < |row|
    ensures RowTotal(row[j := x], w) == RowTotal(row, w) - w(row[j]) + w(x)
  {
    if j > 0 {
      assert row[j := x][1..] == row[1..][j - 1 := x];
      RowTotalUpdate(row[1..], j - 1, x, w);
    } else {
      assert row[j := x][1..] == row[1..];
    }
  }

  /** Replacing one cell changes a grid total by the difference of the two weights. */
  lemma {:induction false} GridTotalUpdate(g: Grid, i: nat, j: nat, x: Cell, w: Cell -> int)
    requires i < |g| && j < |g[i]|
    ensures GridTotal(g[i := g[i][j := x]], w) == GridTotal(g, w) - w(g[i][j]) + w(x)
  {
    if i > 0 {
      assert g[i := g[i][j := x]][1..] == g[1..][i - 1 := g[1..][i - 1][j := x]];
      GridTotalUpdate(g[1..], i - 1, j, x, w);
    } else {
      assert g[i := g[i][j := x]][1..] == g[1..];
      RowTotalUpdate(g[0], j, x, w);
    }
  }

  /** On a row of Size cells the total is the sum of the four weights. */
  lemma RowTotalOfFour(row: Row, w: Cell -> int)
    requires |row| == Size
    ensures RowTotal(row, w) == w(row[0]) + w(row[1]) + w(row[2]) + w(row[3])
  {
    var r1 := row[1..];
    var r2 := r1[1..];
    var r3 := r2[1..];
    assert r3[1..] == [];
    assert RowTotal(r3, w) == w(row[3]);
    assert RowTotal(r2, w) == w(row[2]) + w(row[3]);
    assert RowTotal(r1, w) == w(row[1]) + w(row[2]) + w(row[3]);
  }

  /** On a grid the total is the sum over its 16 cells. */
  lemma GridTotalOfSixteen(g: Grid, w: Cell -> int)
    requires IsGrid(g)
    ensures GridTotal(g, w)
         == w(g[0][0]) + w(g[0][1]) + w(g[0][2]) + w(g[0][3])
          + w(g[1][0]) + w(g[1][1]) + w(g[1][2]) + w(g[1][3])
          + w(g[2][0]) + w(g[2][1]) + w(g[2][2]) + w(g[2][3])
          + w(g[3][0]) + w(g[3][1]) + w(g[3][2]) + w(g[3][3])
  {
    var g1 := g[1..];
    var g2 := g1[1..];
    var g3 := g2[1..];
    assert g3[1..] == [];
    assert GridTotal(g3, w) == RowTotal(g[3], w);
    assert GridTotal(g2, w) == RowTotal(g[2], w) + RowTotal(g[3], w);
    assert GridTotal(g1, w) == RowTotal(g[1], w) + RowTotal(g[2], w) + RowTotal(g[3], w);
    RowTotalOfFour(g[0], w);
    RowTotalOfFour(g[1], w);
    RowTotalOfFour(g[2], w);
    RowTotalOfFour(g[3], w);
  }

  /** Rows whose cells weigh the same, position by position, have the same total. */
  lemma {:induction false} RowTotalSame(a: Row, b: Row, w: Cell -> int)
    requires |a| == |b| && forall j :: 0 <= j < |a| ==> w(a[j]) == w(b[j])
    ensures RowTotal(a, w) == RowTotal(b, w)
  {
    if a != [] {
      RowTotalSame(a[1..], b[1..], w);
    }
  }

  /** Grids whose cells weigh the same, position by position, have the same total. */
  lemma {:induction false} GridTotalSame(g: Grid, h: Grid, w: Cell -> int)
    requires |g| == |h|
    requires forall i :: 0 <= i < |g| ==> |g[i]| == |h[i]|
    requires forall i, j :: 0 <= i < |g| && 0 <= j < |g[i]| ==> w(g[i][j]) == w(h[i][j])
    ensures GridTotal(g, w) == GridTotal(h, w)
  {
    if g != [] {
      RowTotalSame(g[0], h[0], w);
      GridTotalSame(g[1..], h[1..], w);
    }
  }

  /** A sum of non-negative numbers is non-negative. */
  lemma {:induction false} SumNonNegative(xs: seq<int>)
    requires forall k :: 0 <= k < |xs| ==> xs[k] >= 0
    ensures Sum(xs) >= 0
  {
    if xs != [] {
      SumNonNegative(xs[1..]);
    }
  }

  lemma TilesCons(c: Cell, rest: Row)
    ensures Tiles([c] + rest) == (if c.Some? then [c.value] else []) + Tiles(rest)
  {
    assert ([c] + rest)[1..] == rest;
  }

  lemma ValuesAppend(a: seq<Tile>, b: seq<Tile>)
    ensures Values(a + b) == Values(a) + Values(b)
  {
  }
}
