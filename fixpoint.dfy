/** Repeating one direction of getMovedGrid without spawning (src/hooks/useGame.ts): every
    row or column settles, and on a 4-wide board four applications reach a board the next
    application leaves as it is. */
module Fixpoint {
  import opened Board
  import opened Primitives
  import opened Resolver

  /** Whether a direction slides its lines toward their last cell. */
  function Back(dir: Dir): bool {
    dir == Right || dir == Down
  }

  /** Line i of a grid along a direction: a row for left and right, a column for up and down. */
  function Line(g: Grid, dir: Dir, i: int): (line: Row)
    requires IsGrid(g) && 0 <= i < Size
    ensures |line| == Size
  {
    if dir == Left || dir == Right then g[i] else Column(g, i)
  }

  /** A line as a slide leaves it: its tiles gathered at the end it slides toward. */
  predicate Settled(line: Row, back: bool) {
    if back then Packed(Reverse(line)) else Packed(line)
  }

  /** n moves in the same direction with no tile added in between. */
  function Repeat(g: Grid, dir: Dir, n: nat): (r: Grid)
    requires IsGrid(g)
    ensures IsGrid(r)
    decreases n
  {
    if n == 0 then g else Repeat(MovedGrid(g, dir).0, dir, n - 1)
  }

  /** Every line of a moved grid is the slide of the same line before the move. */
  lemma LineOfMoved(g: Grid, dir: Dir, i: int)
    requires IsGrid(g) && 0 <= i < Size
    ensures Line(MovedGrid(g, dir).0, dir, i) == Slide(Line(g, dir, i), Back(dir)).0
  {
    if dir == Up || dir == Down {
      ColumnOfMoved(g, dir, i);
    }
  }

  /** Up and down slide every column on its own. */
  lemma ColumnOfMoved(g: Grid, dir: Dir, i: int)
    requires IsGrid(g) && 0 <= i < Size && (dir == Up || dir == Down)
    ensures Column(MovedGrid(g, dir).0, i) == Slide(Column(g, i), Back(dir)).0
  {
    var t := SlideRows(Transpose(g), Back(dir)).0;
    assert MovedGrid(g, dir).0 == Transpose(t);
    TransposeColumns(g);
    assert t[i] == Slide(Column(g, i), Back(dir)).0;
    assert forall k :: 0 <= k < Size ==> Column(Transpose(t), i)[k] == t[i][k];
  }

  /** Two grids with the same lines along a direction are equal. */
  lemma LinesDetermine(a: Grid, b: Grid, dir: Dir)
    requires IsGrid(a) && IsGrid(b)
    requires forall i :: 0 <= i < Size ==> Line(a, dir, i) == Line(b, dir, i)
    ensures a == b
  {
    forall r | 0 <= r < Size ensures a[r] == b[r] {
      if dir == Up || dir == Down {
        forall c | 0 <= c < Size ensures a[r][c] == b[r][c] {
          assert Line(a, dir, c)[r] == Line(b, dir, c)[r];
        }
      } else {
        assert Line(a, dir, r) == Line(b, dir, r);
      }
    }
  }

  /** A slide leaves its line settled. */
  lemma SlideSettles(line: Row, back: bool)
    requires |line| == Size
    ensures Settled(Slide(line, back).0, back)
  {
    if back {
      ReverseInvolution(MoveRow(Reverse(line)).0);
    }
  }

  /** A row of Size cells holds at most Size tiles, and two neighbouring tiles make at
      least two. */
  lemma CountOfFour(row: Row)
    requires |row| == Size
    ensures RowTotal(row, Occupied) <= Size
    ensures (exists i :: 0 <= i < Size - 1 && SameValue(row[i], row[i + 1])) ==>
      RowTotal(row, Occupied) >= 2
  {
    RowTotalOfFour(row, Occupied);
  }

  /** moveRow on a packed row either changes nothing or merges, which needs two tiles. */
  lemma PackedStep(q: Row)
    requires |q| == Size && Packed(q)
    ensures MoveRow(q).0 == q || (|MoveRow(q).1| > 0 && RowTotal(q, Occupied) >= 2)
  {
    CompressPacked(q);
    MergeQuiet(q);
    CountOfFour(q);
  }

  /** A slide of a settled line either changes nothing or merges, which needs two tiles. */
  lemma SettledStep(line: Row, back: bool)
    requires |line| == Size && Settled(line, back)
    ensures Slide(line, back).0 == line
         || (|Slide(line, back).1| > 0 && RowTotal(line, Occupied) >= 2)
  {
    if back {
      var q := Reverse(line);
      PackedStep(q);
      ReverseInvolution(line);
      ReverseTotal(line, Occupied);
    } else {
      PackedStep(line);
    }
  }

  /** Each line changed by the next move has fewer tiles after it. */
  lemma StepShrinks(line: Row, back: bool)
    requires |line| == Size && Settled(line, back) && Slide(line, back).0 != line
    ensures RowTotal(Slide(line, back).0, Occupied) < RowTotal(line, Occupied)
  {
    SettledStep(line, back);
    SlideTotals(line, back);
  }

  /** One move keeps a line settled, and a line that is not yet still loses a tile. */
  lemma NextLine(h: Grid, dir: Dir, k: nat, i: int)
    requires IsGrid(h) && 0 <= i < Size && Settled(Line(h, dir, i), Back(dir))
    requires Slide(Line(h, dir, i), Back(dir)).0 == Line(h, dir, i) || RowTotal(Line(h, dir, i), Occupied) <= k + 1
    ensures Settled(Line(MovedGrid(h, dir).0, dir, i), Back(dir))
    ensures Slide(Line(MovedGrid(h, dir).0, dir, i), Back(dir)).0 == Line(MovedGrid(h, dir).0, dir, i)
         || RowTotal(Line(MovedGrid(h, dir).0, dir, i), Occupied) <= k
  {
    var line := Line(h, dir, i);
    LineOfMoved(h, dir, i);
    SlideSettles(line, Back(dir));
    if Slide(line, Back(dir)).0 != line {
      StepShrinks(line, Back(dir));
    }
  }

  /** Lines still to move. When every settled line that is not yet still holds at most k + 1
      tiles, k more moves reach a board the next move leaves as it is. */
  lemma {:induction false} RepeatSettles(h: Grid, dir: Dir, k: nat)
    requires IsGrid(h)
    requires forall i :: 0 <= i < Size ==> Settled(Line(h, dir, i), Back(dir))
    requires forall i :: 0 <= i < Size ==>
      Slide(Line(h, dir, i), Back(dir)).0 == Line(h, dir, i) || RowTotal(Line(h, dir, i), Occupied) <= k + 1
    ensures MovedGrid(Repeat(h, dir, k), dir).0 == Repeat(h, dir, k)
    decreases k
  {
    if k == 0 {
      StillBoard(h, dir);
    } else {
      NextBoard(h, dir, k);
      RepeatSettles(MovedGrid(h, dir).0, dir, k - 1);
    }
  }

  /** A board whose lines are settled and either still or holding at most one tile is left as
      it is by the move. */
  lemma StillBoard(h: Grid, dir: Dir)
    requires IsGrid(h)
    requires forall i :: 0 <= i < Size ==> Settled(Line(h, dir, i), Back(dir))
    requires forall i :: 0 <= i < Size ==>
      Slide(Line(h, dir, i), Back(dir)).0 == Line(h, dir, i) || RowTotal(Line(h, dir, i), Occupied) <= 1
    ensures MovedGrid(h, dir).0 == h
  {
    var next := MovedGrid(h, dir).0;
    forall i | 0 <= i < Size ensures Line(next, dir, i) == Line(h, dir, i) {
      LineOfMoved(h, dir, i);
      SettledStep(Line(h, dir, i), Back(dir));
    }
    LinesDetermine(next, h, dir);
  }

  /** NextLine for every line of the board. */
  lemma NextBoard(h: Grid, dir: Dir, k: nat)
    requires IsGrid(h)
    requires forall i :: 0 <= i < Size ==> Settled(Line(h, dir, i), Back(dir))
    requires forall i :: 0 <= i < Size ==>
      Slide(Line(h, dir, i), Back(dir)).0 == Line(h, dir, i) || RowTotal(Line(h, dir, i), Occupied) <= k + 1
    ensures forall i :: 0 <= i < Size ==> Settled(Line(MovedGrid(h, dir).0, dir, i), Back(dir))
    ensures forall i :: 0 <= i < Size ==>
      Slide(Line(MovedGrid(h, dir).0, dir, i), Back(dir)).0 == Line(MovedGrid(h, dir).0, dir, i)
      || RowTotal(Line(MovedGrid(h, dir).0, dir, i), Occupied) <= k
  {
    forall i | 0 <= i < Size
      ensures Settled(Line(MovedGrid(h, dir).0, dir, i), Back(dir))
      ensures Slide(Line(MovedGrid(h, dir).0, dir, i), Back(dir)).0 == Line(MovedGrid(h, dir).0, dir, i)
           || RowTotal(Line(MovedGrid(h, dir).0, dir, i), Occupied) <= k
    {
      NextLine(h, dir, k, i);
    }
  }


  /** Repeating a move settles the board: after four moves in one direction, with no tile added,
      a fifth changes nothing. At most three moves after the first still change a 4-wide
      board. */
  lemma RepeatReachesFixpoint(g: Grid, dir: Dir)
    requires IsGrid(g)
    ensures MovedGrid(Repeat(g, dir, Size), dir).0 == Repeat(g, dir, Size)
  {
    var h := MovedGrid(g, dir).0;
    forall i | 0 <= i < Size
      ensures Settled(Line(h, dir, i), Back(dir))
      ensures RowTotal(Line(h, dir, i), Occupied) <= Size
    {
      LineOfMoved(g, dir, i);
      SlideSettles(Line(g, dir, i), Back(dir));
      CountOfFour(Line(h, dir, i));
    }
    RepeatSettles(h, dir, Size - 1);
  }
}
