/** getRandomEmptyCell and addRandomTile (src/hooks/useGame.ts), with the random draws passed
    in: `choice` stands for the draw that picks an empty cell and `four` for the draw that
    picks a 4 instead of a 2. */
module Spawn {
  import opened Board
  import opened Primitives

  /** The empty cells (ri, ci) of a row with ci < c, left to right. */
  function EmptyCellsInRow(row: Row, ri: int, c: nat): seq<(int, int)>
    requires c <= |row|
  {
    if c == 0 then []
    else EmptyCellsInRow(row, ri, c - 1) + (if row[c - 1].None? then [(ri, c - 1)] else [])
  }

  /** The empty cells of the first r rows, in row-major order. */
  function EmptyCellsBefore(g: Grid, r: nat): seq<(int, int)>
    requires r <= |g|
  {
    if r == 0 then []
    else EmptyCellsBefore(g, r - 1) + EmptyCellsInRow(g[r - 1], r - 1, |g[r - 1]|)
  }

  /** The empty cells of a grid, in the row-major order `forEach` visits them. */
  function EmptyCells(g: Grid): seq<(int, int)> {
    EmptyCellsBefore(g, |g|)
  }

  lemma {:induction false} EmptyCellsInRowMembers(row: Row, ri: int, c: nat)
    requires c <= |row|
    ensures forall p :: p in EmptyCellsInRow(row, ri, c) <==> p.0 == ri && 0 <= p.1 < c && row[p.1].None?
  {
    if c > 0 {
      EmptyCellsInRowMembers(row, ri, c - 1);
    }
  }

  lemma {:induction false} EmptyCellsBeforeMembers(g: Grid, r: nat)
    requires r <= |g|
    ensures forall p :: p in EmptyCellsBefore(g, r) <==>
      0 <= p.0 < r && 0 <= p.1 < |g[p.0]| && g[p.0][p.1].None?
  {
    if r > 0 {
      EmptyCellsBeforeMembers(g, r - 1);
      EmptyCellsInRowMembers(g[r - 1], r - 1, |g[r - 1]|);
    }
  }

  /** EmptyCells lists exactly the empty cells of the grid. */
  lemma EmptyCellsMembers(g: Grid)
    ensures forall p :: p in EmptyCells(g) <==> 0 <= p.0 < |g| && 0 <= p.1 < |g[p.0]| && g[p.0][p.1].None?
  {
    EmptyCellsBeforeMembers(g, |g|);
  }

  /** getRandomEmptyCell: collects the empty cells row by row, then picks one of them;
      None when there is none. */
  method GetRandomEmptyCell(g: Grid, choice: nat) returns (pos: Option<(int, int)>)
    ensures pos == if EmptyCells(g) == [] then None
                   else Some(EmptyCells(g)[choice % |EmptyCells(g)|])
    ensures pos.None? <==> forall i, j :: 0 <= i < |g| && 0 <= j < |g[i]| ==> g[i][j].Some?
    ensures pos.Some? ==> 0 <= pos.value.0 < |g| && 0 <= pos.value.1 < |g[pos.value.0]|
                          && g[pos.value.0][pos.value.1].None?
  {
    var empty: seq<(int, int)> := [];
    for ri := 0 to |g|
      invariant empty == EmptyCellsBefore(g, ri)
    {
      for ci := 0 to |g[ri]|
        invariant empty == EmptyCellsBefore(g, ri) + EmptyCellsInRow(g[ri], ri, ci)
      {
        if g[ri][ci].None? {
          empty := empty + [(ri, ci)];
        }
      }
    }
    EmptyCellsMembers(g);
    if |empty| == 0 {
      forall i, j | 0 <= i < |g| && 0 <= j < |g[i]| ensures g[i][j].Some? {
        assert (i, j) !in empty;
      }
      return None;
    }
    pos := Some(empty[choice % |empty|]);
    assert empty[choice % |empty|] in empty;
  }

  /** A tile as addRandomTile leaves it: same value, both hints cleared. */
  function Cleared(c: Cell): (r: Cell)
    ensures Shown(r) == Shown(c) && (r.Some? ==> !r.value.isNew && !r.value.merged)
  {
    if c.Some? then Some(Tile(c.value.value, false, false)) else None
  }

  /** The copy addRandomTile starts from: every tile with its hints cleared. */
  function ClearFlags(g: Grid): (r: Grid)
    ensures |r| == |g|
    ensures forall i :: 0 <= i < |g| ==> |r[i]| == |g[i]|
    ensures forall i, j :: 0 <= i < |g| && 0 <= j < |g[i]| ==> r[i][j] == Cleared(g[i][j])
  {
    seq(|g|, i requires 0 <= i < |g| => seq(|g[i]|, j requires 0 <= j < |g[i]| => Cleared(g[i][j])))
  }

  /** The tile placed by addRandomTile: a 2, or a 4 when the draw says so, marked new. */
  function NewTile(four: bool): Cell {
    Some(Tile(if four then 4 else 2, true, false))
  }

  /** addRandomTile: clear every hint, then put a new tile on the chosen empty cell, if any. */
  function Spawned(g: Grid, choice: nat, four: bool): (r: Grid)
    requires IsGrid(g)
    ensures IsGrid(r)
  {
    var copy := ClearFlags(g);
    var cells := EmptyCells(copy);
    if cells == [] then copy
    else
      var p := cells[choice % |cells|];
      EmptyCellsMembers(copy);
      assert p in cells;
      copy[p.0 := copy[p.0][p.1 := NewTile(four)]]
  }

  /** addRandomTile as the hook runs it: a cleared copy, then one write into it. */
  method AddRandomTile(g: Grid, choice: nat, four: bool) returns (r: Grid)
    requires IsGrid(g)
    ensures r == Spawned(g, choice, four)
  {
    var copy := ClearFlags(g);
    var pos := GetRandomEmptyCell(copy, choice);
    if pos.Some? {
      var (ri, ci) := pos.value;
      copy := copy[ri := copy[ri][ci := NewTile(four)]];
    }
    return copy;
  }

  /** Clearing the hints keeps the number of tiles. */
  lemma ClearFlagsCount(g: Grid)
    requires IsGrid(g)
    ensures IsGrid(ClearFlags(g)) && TileCount(ClearFlags(g)) == TileCount(g)
  {
    GridTotalSame(ClearFlags(g), g, Occupied);
  }

  /** addRandomTile: when the grid has an empty cell, exactly one empty cell gets a new 2 or 4
      and every other cell keeps its value with both hints cleared; on a full grid only the
      hints change. Either way no tile is left flagged merged. */
  lemma SpawnedSpec(g: Grid, choice: nat, four: bool)
    requires IsGrid(g)
    ensures IsGrid(Spawned(g, choice, four))
    ensures !Full(g) ==> exists r, c ::
      0 <= r < Size && 0 <= c < Size && g[r][c].None?
      && Spawned(g, choice, four)[r][c] == NewTile(four)
      && (forall i, j :: 0 <= i < Size && 0 <= j < Size && (i != r || j != c) ==>
            Spawned(g, choice, four)[i][j] == Cleared(g[i][j]))
    ensures Full(g) ==> Spawned(g, choice, four) == ClearFlags(g)
    ensures TileCount(Spawned(g, choice, four)) == TileCount(g) + (if Full(g) then 0 else 1)
    ensures Unmerged(Spawned(g, choice, four))
  {
    var copy := ClearFlags(g);
    var cells := EmptyCells(copy);
    var s := Spawned(g, choice, four);
    EmptyCellsMembers(copy);
    ClearFlagsCount(g);
    if cells == [] {
      assert Full(g) by {
        forall r, c | 0 <= r < Size && 0 <= c < Size ensures g[r][c].Some? {
          assert (r, c) !in cells;
        }
      }
    } else {
      var p := cells[choice % |cells|];
      assert p in cells;
      assert !Full(g) by {
        assert g[p.0][p.1].None?;
      }
      GridTotalUpdate(copy, p.0, p.1, NewTile(four), Occupied);
      assert forall i, j :: 0 <= i < Size && 0 <= j < Size && (i != p.0 || j != p.1) ==>
        s[i][j] == Cleared(g[i][j]);
    }
  }

  /** addRandomTile keeps every tile a power of two of at least 2. */
  lemma SpawnedGood(g: Grid, choice: nat, four: bool)
    requires GoodGrid(g)
    ensures GoodGrid(Spawned(g, choice, four))
  {
    SpawnedSpec(g, choice, four);
    var s := Spawned(g, choice, four);
    assert IsPowerOfTwo(4) by {
      assert IsPowerOfTwo(2);
    }
    forall i | 0 <= i < Size ensures GoodRow(s[i]) {
      forall j | 0 <= j < Size ensures GoodCell(s[i][j]) {
        assert GoodCell(g[i][j]);
      }
    }
  }

  /** A full grid holds 16 tiles and the empty grid none. */
  lemma CountBounds(g: Grid)
    requires IsGrid(g)
    ensures Full(g) ==> TileCount(g) == Size * Size
    ensures TileCount(EmptyGrid()) == 0
  {
    GridTotalOfSixteen(g, Occupied);
    GridTotalOfSixteen(EmptyGrid(), Occupied);
  }
}
