/** The row and grid transforms of the move engine: compress, merge, reverse, transpose,
    the game-over scan and the empty board (src/hooks/useGame.ts). */
module Primitives {
  import opened Board

  /* ---------- compress ---------- */

  /** Slides the tiles of a row toward index 0, keeping them (flags included) in order,
      and pads with empty cells up to Size. */
  function Compress(row: Row): (r: Row)
    requires |row| == Size
    ensures |r| == Size && Packed(r) && Tiles(r) == Tiles(row)
    ensures forall i :: 0 <= i < Size ==> (r[i].Some? <==> i < |Tiles(row)|)
  {
    var ts := Tiles(row);
    TilesLift(ts);
    TilesEmpties(Size - |ts|);
    TilesAppend(Lift(ts), Empties(Size - |ts|));
    Lift(ts) + Empties(Size - |ts|)
  }

  lemma {:induction false} PackedTail(row: Row)
    requires Packed(row) && row != []
    ensures Packed(row[1..])
  {
    forall i, j | 0 <= i < j < |row[1..]| && row[1..][i].None?
      ensures row[1..][j].None?
    {
      assert row[1..][i] == row[i + 1] && row[1..][j] == row[j + 1];
    }
  }

  /** A packed row is determined by its tiles and its length. */
  lemma {:induction false} PackedUnique(a: Row, b: Row)
    requires |a| == |b| && Packed(a) && Packed(b) && Tiles(a) == Tiles(b)
    ensures a == b
  {
    if a != [] {
      TilesEmptyIff(a);
      TilesEmptyIff(b);
      if a[0].None? {
        assert forall i :: 0 <= i < |a| ==> a[i].None?;
        assert forall i :: 0 <= i < |b| ==> b[i].None?;
        assert forall i :: 0 <= i < |a| ==> a[i] == b[i];
      } else {
        assert b[0].Some?;
        assert a == [a[0]] + a[1..] && b == [b[0]] + b[1..];
        TilesCons(a[0], a[1..]);
        TilesCons(b[0], b[1..]);
        assert Tiles(a)[0] == a[0].value && Tiles(a)[1..] == Tiles(a[1..]);
        assert Tiles(b)[0] == b[0].value && Tiles(b)[1..] == Tiles(b[1..]);
        PackedTail(a);
        PackedTail(b);
        PackedUnique(a[1..], b[1..]);
        assert a == [a[0]] + a[1..] && b == [b[0]] + b[1..];
      }
    }
  }

  /** A row that is already packed is left as it is. */
  lemma CompressPacked(row: Row)
    requires |row| == Size && Packed(row)
    ensures Compress(row) == row
  {
    PackedUnique(Compress(row), row);
  }

  /** compress is idempotent. */
  lemma CompressIdempotent(row: Row)
    requires |row| == Size
    ensures Compress(Compress(row)) == Compress(row)
  {
    CompressPacked(Compress(row));
  }

  /** Every tile of a row comes from a cell of it. */
  lemma {:induction false} TilesFrom(row: Row)
    ensures forall t :: t in Tiles(row) ==> Some(t) in row
  {
    if row != [] {
      TilesFrom(row[1..]);
      assert forall c :: c in row[1..] ==> c in row;
    }
  }

  /** Every tile left by compress was a cell of the input row. */
  lemma CompressFrom(row: Row)
    requires |row| == Size
    ensures forall i :: 0 <= i < Size && Compress(row)[i].Some? ==> Compress(row)[i] in row
  {
    TilesFrom(row);
    var ts := Tiles(row);
    forall i | 0 <= i < Size && Compress(row)[i].Some? ensures Compress(row)[i] in row {
      assert Compress(row)[i] == Some(ts[i]);
      assert ts[i] in ts;
    }
  }

  /** compress keeps every total that ignores empty cells: tile sum, tile count, merged sum. */
  lemma CompressTotal(row: Row, w: Cell -> int)
    requires |row| == Size && w(None) == 0
    ensures RowTotal(Compress(row), w) == RowTotal(row, w)
  {
    TotalOfTiles(row, w);
    TotalOfTiles(Compress(row), w);
  }

  /* ---------- merge ---------- */

  /** One left-to-right pass of merge over the cells: an equal adjacent pair becomes a tile of
      twice the value (flagged merged) followed by an empty cell, and the pass resumes after
      the pair; the second component lists the merged values in the order they are reported. */
  function Sweep(row: Row): (r: (Row, seq<int>))
    ensures |r.0| == |row|
  {
    if |row| < 2 then (row, [])
    else if SameValue(row[0], row[1]) then
      var v := row[0].value.value * 2;
      var rest := Sweep(row[2..]);
      ([Some(Tile(v, false, true)), None] + rest.0, [v] + rest.1)
    else
      var rest := Sweep(row[1..]);
      ([row[0]] + rest.0, rest.1)
  }

  /** merge(row, addScore): the pass, then compress; the second component is the sequence of
      values handed to the score callback. */
  function Merged(row: Row): (r: (Row, seq<int>))
    requires |row| == Size
    ensures |r.0| == Size && Packed(r.0)
  {
    var s := Sweep(row);
    (Compress(s.0), s.1)
  }

  /** One step of the pass at a merging pair: the merged tile, then the pass resumes on an
      empty cell followed by the rest. */
  lemma SweepMergeStep(s: Row)
    requires |s| >= 2 && SameValue(s[0], s[1])
    ensures Sweep(s).0 == [Some(Tile(s[0].value.value * 2, false, true))] + Sweep([None] + s[2..]).0
    ensures Sweep(s).1 == [s[0].value.value * 2] + Sweep([None] + s[2..]).1
  {
    SweepEmptyHead(s[2..]);
  }

  /** One step of the pass at a cell that does not merge with the next. */
  lemma SweepKeepStep(s: Row)
    requires |s| >= 2 && !SameValue(s[0], s[1])
    ensures Sweep(s).0 == [s[0]] + Sweep(s[1..]).0 && Sweep(s).1 == Sweep(s[1..]).1
  {
  }

  lemma SweepEmptyHead(s: Row)
    ensures Sweep([None] + s) == ([None] + Sweep(s).0, Sweep(s).1)
  {
    if |s| > 0 {
      assert ([None] + s)[1..] == s;
    }
  }

  /** merge as the hook runs it: a copy of the row updated in place by a for loop, each
      merged value reported once, then compress. */
  method Merge(row: Row) returns (r: Row, gains: seq<int>)
    requires |row| == Size
    ensures r == Merged(row).0 && gains == Merged(row).1
  {
    var a := new Cell[Size](i requires 0 <= i < Size => row[i]);
    assert a[..] == row;
    gains := [];
    for i := 0 to Size - 1
      invariant a[..i] + Sweep(a[i..]).0 == Sweep(row).0
      invariant gains + Sweep(a[i..]).1 == Sweep(row).1
    {
      ghost var before := a[..];
      MergeStep(before, i, gains, row);
      var curr := a[i];
      var next := a[i + 1];
      if curr.Some? && next.Some? && curr.value.value == next.value.value {
        var mergedValue := curr.value.value * 2;
        a[i] := Some(Tile(mergedValue, false, true));
        a[i + 1] := None;
        gains := gains + [mergedValue];
        assert a[..] == before[i := Some(Tile(mergedValue, false, true))][i + 1 := None];
      }
    }
    assert Sweep(a[Size - 1..]) == (a[Size - 1..], []);
    assert a[..] == a[..Size - 1] + a[Size - 1..];
    r := Compress(a[..]);
  }

  /** One iteration of the loop of Merge keeps its invariant. */
  lemma MergeStep(before: Row, i: nat, gains: seq<int>, row: Row)
    requires i + 1 < |before|
    requires before[..i] + Sweep(before[i..]).0 == Sweep(row).0
    requires gains + Sweep(before[i..]).1 == Sweep(row).1
    ensures SameValue(before[i], before[i + 1]) ==>
      var v := before[i].value.value * 2;
      var after := before[i := Some(Tile(v, false, true))][i + 1 := None];
      after[..i + 1] + Sweep(after[i + 1..]).0 == Sweep(row).0
      && (gains + [v]) + Sweep(after[i + 1..]).1 == Sweep(row).1
    ensures !SameValue(before[i], before[i + 1]) ==>
      before[..i + 1] + Sweep(before[i + 1..]).0 == Sweep(row).0
      && gains + Sweep(before[i + 1..]).1 == Sweep(row).1
  {
    if SameValue(before[i], before[i + 1]) {
      FuseStep(before, i, gains, row);
    } else {
      KeepStep(before, i, gains, row);
    }
  }

  /** MergeStep when the pair at i fuses. */
  lemma FuseStep(before: Row, i: nat, gains: seq<int>, row: Row)
    requires i + 1 < |before| && SameValue(before[i], before[i + 1])
    requires before[..i] + Sweep(before[i..]).0 == Sweep(row).0
    requires gains + Sweep(before[i..]).1 == Sweep(row).1
    ensures var v := before[i].value.value * 2;
      var after := before[i := Some(Tile(v, false, true))][i + 1 := None];
      after[..i + 1] + Sweep(after[i + 1..]).0 == Sweep(row).0
      && (gains + [v]) + Sweep(after[i + 1..]).1 == Sweep(row).1
  {
    var v := before[i].value.value * 2;
    var after := before[i := Some(Tile(v, false, true))][i + 1 := None];
    SweepMergeStep(before[i..]);
    assert before[i..][2..] == before[i + 2..];
    assert after[..i + 1] == before[..i] + [Some(Tile(v, false, true))];
    assert after[i + 1..] == [None] + before[i + 2..];
  }

  /** MergeStep when the cell at i is kept. */
  lemma KeepStep(before: Row, i: nat, gains: seq<int>, row: Row)
    requires i + 1 < |before| && !SameValue(before[i], before[i + 1])
    requires before[..i] + Sweep(before[i..]).0 == Sweep(row).0
    requires gains + Sweep(before[i..]).1 == Sweep(row).1
    ensures before[..i + 1] + Sweep(before[i + 1..]).0 == Sweep(row).0
    ensures gains + Sweep(before[i + 1..]).1 == Sweep(row).1
  {
    SweepKeepStep(before[i..]);
    assert before[i..][1..] == before[i + 1..];
    assert before[..i + 1] == before[..i] + [before[i]];
  }


  /** The pass reports nothing exactly when no two adjacent cells show the same value. */
  lemma {:induction false} SweepReportsIff(row: Row)
    ensures Sweep(row).1 == [] <==> forall i :: 0 <= i < |row| - 1 ==> !SameValue(row[i], row[i + 1])
  {
    if |row| >= 2 && !SameValue(row[0], row[1]) {
      var t := row[1..];
      SweepReportsIff(t);
      assert forall i :: 0 <= i < |t| ==> t[i] == row[i + 1];
    }
  }

  /** A pass that reports nothing leaves the row as it is. */
  lemma {:induction false} SweepQuiet(row: Row)
    requires Sweep(row).1 == []
    ensures Sweep(row).0 == row
  {
    if |row| >= 2 {
      SweepQuiet(row[1..]);
      assert row == [row[0]] + row[1..];
    }
  }

  /** The pass conserves the sum of tile values and removes one tile per reported merge. */
  lemma {:induction false} SweepTotals(row: Row)
    ensures RowTotal(Sweep(row).0, Value) == RowTotal(row, Value)
    ensures RowTotal(Sweep(row).0, Occupied) + |Sweep(row).1| == RowTotal(row, Occupied)
  {
    if |row| >= 2 {
      assert row[1..][1..] == row[2..];
      if SameValue(row[0], row[1]) {
        var m := Some(Tile(row[0].value.value * 2, false, true));
        var rest := Sweep(row[2..]);
        SweepTotals(row[2..]);
        assert ([m, None] + rest.0)[1..] == [None] + rest.0;
        assert ([None] + rest.0)[1..] == rest.0;
      } else {
        SweepTotals(row[1..]);
        assert ([row[0]] + Sweep(row[1..]).0)[1..] == Sweep(row[1..]).0;
      }
    }
  }

  /** On a row without merged hints the reported values are exactly the values of the tiles
      the pass flags as merged, in order. */
  lemma {:induction false} SweepReportsMerged(row: Row)
    requires RowUnmerged(row)
    ensures Sweep(row).1 == MergedValues(Tiles(Sweep(row).0))
  {
    if |row| < 2 {
      if |row| == 1 {
        assert Tiles(row) == (if row[0].Some? then [row[0].value] else []) + Tiles([]);
      }
    } else {
      if SameValue(row[0], row[1]) {
        var m := Some(Tile(row[0].value.value * 2, false, true));
        var rest := Sweep(row[2..]);
        assert RowUnmerged(row[2..]) by {
          assert forall i :: 0 <= i < |row[2..]| ==> row[2..][i] == row[i + 2];
        }
        SweepReportsMerged(row[2..]);
        TilesAppend([m, None], rest.0);
        assert Tiles([m, None]) == [m.value] + Tiles([None]);
        assert Tiles([None]) == [] + Tiles([]);
        MergedValuesAppend([m.value], Tiles(rest.0));
      } else {
        var rest := Sweep(row[1..]);
        assert RowUnmerged(row[1..]) by {
          assert forall i :: 0 <= i < |row[1..]| ==> row[1..][i] == row[i + 1];
        }
        SweepReportsMerged(row[1..]);
        TilesAppend([row[0]], rest.0);
        assert Tiles([row[0]]) == (if row[0].Some? then [row[0].value] else []) + Tiles([]);
        MergedValuesAppend(Tiles([row[0]]), Tiles(rest.0));
      }
    }
  }

  /** The pass keeps every tile a power of two of at least 2, and reports values of at least 4. */
  lemma {:induction false} SweepGood(row: Row)
    requires GoodRow(row)
    ensures GoodRow(Sweep(row).0)
    ensures forall k :: 0 <= k < |Sweep(row).1| ==> Sweep(row).1[k] >= 4
  {
    if |row| >= 2 {
      if SameValue(row[0], row[1]) {
        var v := row[0].value.value;
        assert GoodRow(row[2..]) by {
          assert forall i :: 0 <= i < |row[2..]| ==> row[2..][i] == row[i + 2];
        }
        SweepGood(row[2..]);
        assert IsPowerOfTwo(v * 2) by {
          assert (v * 2) / 2 == v;
        }
      } else {
        assert GoodRow(row[1..]) by {
          assert forall i :: 0 <= i < |row[1..]| ==> row[1..][i] == row[i + 1];
        }
        SweepGood(row[1..]);
      }
    }
  }

  /** The usual statement of a 2048 slide on the values of a packed row: an equal leading pair
      becomes one value of twice the size and is not considered again. */
  function Collapse(vs: seq<int>): (r: seq<int>)
    ensures |r| <= |vs|
  {
    if |vs| < 2 then vs
    else if vs[0] == vs[1] then [2 * vs[0]] + Collapse(vs[2..])
    else [vs[0]] + Collapse(vs[1..])
  }

  /** A packed row whose first cell is empty holds no tile. */
  lemma PackedEmptyHead(row: Row)
    requires Packed(row) && row != [] && row[0].None?
    ensures Tiles(row) == []
  {
    TilesEmptyIff(row);
  }

  /** On a packed row the pass slides the tile values exactly as Collapse does. */
  lemma {:induction false} SweepCollapses(row: Row)
    requires Packed(row)
    ensures Values(Tiles(Sweep(row).0)) == Collapse(Values(Tiles(row)))
    decreases |row|, 1
  {
    if |row| < 2 {
      if |row| == 1 {
        assert row == [row[0]] + [];
        TilesCons(row[0], []);
      }
    } else if SameValue(row[0], row[1]) {
      SweepCollapsesPair(row);
    } else {
      SweepCollapsesSingle(row);
    }
  }

  /** The case of SweepCollapses where the first two tiles merge. */
  lemma {:induction false} SweepCollapsesPair(row: Row)
    requires Packed(row) && |row| >= 2 && SameValue(row[0], row[1])
    ensures Values(Tiles(Sweep(row).0)) == Collapse(Values(Tiles(row)))
    decreases |row|, 0
  {
    var v := row[0].value.value;
    var tail := row[2..];
    assert Packed(tail) by {
      PackedTail(row);
      PackedTail(row[1..]);
      assert row[1..][1..] == tail;
    }
    SweepCollapses(tail);
    PairValues(row);
    CollapsePair(v, Values(Tiles(tail)));
    PairSweptValues(row);
  }

  /** The values of a row that starts with two tiles. */
  lemma PairValues(row: Row)
    requires |row| >= 2 && row[0].Some? && row[1].Some?
    ensures Values(Tiles(row)) == [row[0].value.value, row[1].value.value] + Values(Tiles(row[2..]))
  {
    TilesPair(row);
    ValuesPair(row[0].value, row[1].value, Tiles(row[2..]));
  }

  lemma TilesPair(row: Row)
    requires |row| >= 2 && row[0].Some? && row[1].Some?
    ensures Tiles(row) == [row[0].value, row[1].value] + Tiles(row[2..])
  {
    var tail := row[2..];
    assert row == [row[0]] + ([row[1]] + tail);
    TilesCons(row[1], tail);
    TilesCons(row[0], [row[1]] + tail);
  }

  lemma ValuesPair(x: Tile, y: Tile, ts: seq<Tile>)
    ensures Values([x, y] + ts) == [x.value, y.value] + Values(ts)
  {
    ValuesAppend([x, y], ts);
  }

  /** The values left by the pass on a row whose first two tiles merge. */
  lemma PairSweptValues(row: Row)
    requires |row| >= 2 && SameValue(row[0], row[1])
    ensures Values(Tiles(Sweep(row).0)) == [row[0].value.value * 2] + Values(Tiles(Sweep(row[2..]).0))
  {
    var t := Tile(row[0].value.value * 2, false, true);
    SweptPairTiles(row);
    ValuesAppend([t], Tiles(Sweep(row[2..]).0));
  }

  /** The tiles left by the pass on a row whose first two tiles merge. */
  lemma SweptPairTiles(row: Row)
    requires |row| >= 2 && SameValue(row[0], row[1])
    ensures Tiles(Sweep(row).0) == [Tile(row[0].value.value * 2, false, true)] + Tiles(Sweep(row[2..]).0)
  {
    var m := Some(Tile(row[0].value.value * 2, false, true));
    var rest := Sweep(row[2..]);
    assert Sweep(row).0 == [m] + ([None] + rest.0);
    TilesCons(None, rest.0);
    TilesCons(m, [None] + rest.0);
  }

  lemma CollapsePair(v: int, rest: seq<int>)
    ensures Collapse([v, v] + rest) == [2 * v] + Collapse(rest)
  {
    assert ([v, v] + rest)[2..] == rest;
  }

  /** The case of SweepCollapses where the first cell is kept as it is. */
  lemma {:induction false} SweepCollapsesSingle(row: Row)
    requires Packed(row) && |row| >= 2 && !SameValue(row[0], row[1])
    ensures Values(Tiles(Sweep(row).0)) == Collapse(Values(Tiles(row)))
    decreases |row|, 0
  {
    var t := row[1..];
    PackedTail(row);
    SweepCollapses(t);
    assert row == [row[0]] + t;
    TilesCons(row[0], t);
    assert Sweep(row).0 == [row[0]] + Sweep(t).0;
    TilesCons(row[0], Sweep(t).0);
    if row[0].None? {
      PackedEmptyHead(row);
      PackedEmptyHead(t);
    } else {
      ValuesAppend([row[0].value], Tiles(Sweep(t).0));
      ValuesAppend([row[0].value], Tiles(t));
      if row[1].None? {
        PackedEmptyHead(t);
      } else {
        assert t == [row[1]] + t[1..];
        TilesCons(row[1], t[1..]);
        var vs := Values(Tiles(row));
        assert vs[1..] == Values(Tiles(t));
        assert vs[0] != vs[1];
      }
    }
  }

  /** merge conserves the sum of tile values, and leaves one tile fewer per reported merge. */
  lemma MergeConserves(row: Row)
    requires |row| == Size
    ensures RowTotal(Merged(row).0, Value) == RowTotal(row, Value)
    ensures RowTotal(Merged(row).0, Occupied) + |Merged(row).1| == RowTotal(row, Occupied)
  {
    SweepTotals(row);
    CompressTotal(Sweep(row).0, Value);
    CompressTotal(Sweep(row).0, Occupied);
  }

  /** On a row without merged hints, the callback receives exactly the values of the merged
      tiles of the result, left to right, so the score gained is their sum. */
  lemma MergeReportsMerged(row: Row)
    requires |row| == Size && RowUnmerged(row)
    ensures Merged(row).1 == MergedValues(Tiles(Merged(row).0))
    ensures Sum(Merged(row).1) == RowTotal(Merged(row).0, MergedValue)
  {
    SweepReportsMerged(row);
    MergedTotal(Merged(row).0);
  }

  /** On a packed row (merge always runs after compress), merge slides the values as Collapse:
      a tile made by a merge is never merged again in the same pass. */
  lemma MergeCollapses(row: Row)
    requires |row| == Size && Packed(row)
    ensures Values(Tiles(Merged(row).0)) == Collapse(Values(Tiles(row)))
  {
    SweepCollapses(row);
  }

  /** merge reports nothing exactly when no adjacent cells show the same value, and then a
      packed row is returned unchanged. */
  lemma MergeQuiet(row: Row)
    requires |row| == Size
    ensures Merged(row).1 == [] <==> forall i :: 0 <= i < Size - 1 ==> !SameValue(row[i], row[i + 1])
    ensures Merged(row).1 == [] && Packed(row) ==> Merged(row).0 == row
  {
    SweepReportsIff(row);
    if Merged(row).1 == [] && Packed(row) {
      SweepQuiet(row);
      CompressPacked(row);
    }
  }

  /** merge keeps tiles powers of two of at least 2 and reports values of at least 4. */
  lemma MergeGood(row: Row)
    requires |row| == Size && GoodRow(row)
    ensures GoodRow(Merged(row).0)
    ensures forall k :: 0 <= k < |Merged(row).1| ==> Merged(row).1[k] >= 4
  {
    SweepGood(row);
    CompressFrom(Sweep(row).0);
  }

  /** [2,2,2,2] becomes [4,4,_,_] reporting 4 twice: two separate pairs fuse, not all four. */
  lemma MergeExampleEqual()
    ensures var t2 := Some(Tile(2, false, false));
            var m4 := Some(Tile(4, false, true));
            Merged([t2, t2, t2, t2]).0 == [m4, m4, None, None] && Merged([t2, t2, t2, t2]).1 == [4, 4]
  {
    var t2 := Some(Tile(2, false, false));
    var m4 := Some(Tile(4, false, true));
    var e: Row := [];
    assert Sweep(e).0 == e && Sweep(e).1 == [];
    assert Sweep([t2, t2]).0 == [m4, None] && Sweep([t2, t2]).1 == [4] by {
      assert [t2, t2][2..] == e;
    }
    assert Sweep([t2, t2, t2, t2]).0 == [m4, None, m4, None] && Sweep([t2, t2, t2, t2]).1 == [4, 4] by {
      assert [t2, t2, t2, t2][2..] == [t2, t2];
    }
    assert Tiles([m4, None, m4, None]) == [m4.value, m4.value] by {
      TilesCons(None, e);
      TilesCons(m4, [None]);
      TilesCons(None, [m4, None]);
      TilesCons(m4, [None, m4, None]);
    }
  }

  /** [2,2,4,_] becomes [4,4,_,_]: the fused 4 is not fused again with the 4 after it. */
  lemma MergeExampleFused()
    ensures var t2, t4 := Some(Tile(2, false, false)), Some(Tile(4, false, false));
            var m4 := Some(Tile(4, false, true));
            Merged([t2, t2, t4, None]).0 == [m4, t4, None, None] && Merged([t2, t2, t4, None]).1 == [4]
  {
    var t2, t4 := Some(Tile(2, false, false)), Some(Tile(4, false, false));
    var m4 := Some(Tile(4, false, true));
    var e: Row := [];
    assert Sweep([None]).0 == [None] && Sweep([None]).1 == [];
    assert Sweep([t4, None]).0 == [t4, None] && Sweep([t4, None]).1 == [] by {
      assert [t4, None][1..] == [None];
    }
    assert Sweep([t2, t2, t4, None]).0 == [m4, None, t4, None] && Sweep([t2, t2, t4, None]).1 == [4] by {
      assert [t2, t2, t4, None][2..] == [t4, None];
    }
    assert Tiles([m4, None, t4, None]) == [m4.value, t4.value] by {
      TilesCons(None, e);
      TilesCons(t4, [None]);
      TilesCons(None, [t4, None]);
      TilesCons(m4, [None, t4, None]);
    }
  }


  /* ---------- reverse and transpose ---------- */

  /** `[...row].reverse()`. */
  function Reverse<T>(s: seq<T>): (r: seq<T>)
    ensures |r| == |s| && forall i :: 0 <= i < |s| ==> r[i] == s[|s| - 1 - i]
  {
    if s == [] then [] else Reverse(s[1..]) + [s[0]]
  }

  lemma ReverseInvolution<T>(s: seq<T>)
    ensures Reverse(Reverse(s)) == s
  {
  }

  /** Reversing a row keeps every total. */
  lemma {:induction false} ReverseTotal(row: Row, w: Cell -> int)
    ensures RowTotal(Reverse(row), w) == RowTotal(row, w)
  {
    if row != [] {
      ReverseTotal(row[1..], w);
      RowTotalAppend(Reverse(row[1..]), [row[0]], w);
      assert [row[0]][1..] == [];
    }
  }

  /** Rows and columns swapped: the cell at (c, r) of the result is the cell at (r, c). */
  function Transpose(g: Grid): (t: Grid)
    requires IsGrid(g)
    ensures IsGrid(t)
    ensures forall c, r :: 0 <= c < Size && 0 <= r < Size ==> t[c][r] == g[r][c]
  {
    seq(Size, c requires 0 <= c < Size => seq(Size, r requires 0 <= r < Size => g[r][c]))
  }

  /** transpose is its own inverse on 4 by 4 grids. */
  lemma TransposeInvolution(g: Grid)
    requires IsGrid(g)
    ensures Transpose(Transpose(g)) == g
  {
    var t := Transpose(Transpose(g));
    forall r | 0 <= r < Size ensures t[r] == g[r] {
      assert forall c :: 0 <= c < Size ==> t[r][c] == g[r][c];
    }
  }

  /** Transposing keeps every grid total. */
  lemma TransposeTotal(g: Grid, w: Cell -> int)
    requires IsGrid(g)
    ensures GridTotal(Transpose(g), w) == GridTotal(g, w)
  {
    GridTotalOfSixteen(g, w);
    GridTotalOfSixteen(Transpose(g), w);
  }

  /* ---------- game over and the empty board ---------- */

  /** The grid is full and no tile equals its right or its bottom neighbour. */
  predicate GameOver(g: Grid)
    requires IsGrid(g)
  {
    (forall r, c :: 0 <= r < Size && 0 <= c < Size ==> g[r][c].Some?)
    && (forall r, c :: 0 <= r < Size && 0 <= c < Size ==> !RightTwin(g, r, c))
    && (forall r, c :: 0 <= r < Size && 0 <= c < Size ==> !BelowTwin(g, r, c))
  }

  /** Cell (r, c) shows the same value as its right neighbour. */
  predicate RightTwin(g: Grid, r: int, c: int)
    requires IsGrid(g) && 0 <= r < Size && 0 <= c < Size
  {
    c < Size - 1 && SameValue(g[r][c], g[r][c + 1])
  }

  /** Cell (r, c) shows the same value as its bottom neighbour. */
  predicate BelowTwin(g: Grid, r: int, c: int)
    requires IsGrid(g) && 0 <= r < Size && 0 <= c < Size
  {
    r < Size - 1 && SameValue(g[r][c], g[r + 1][c])
  }

  /** Cell (r, c) keeps the game going: it is empty or equals its right or bottom neighbour. */
  predicate Blocking(g: Grid, r: int, c: int)
    requires IsGrid(g) && 0 <= r < Size && 0 <= c < Size
  {
    g[r][c].None? || RightTwin(g, r, c) || BelowTwin(g, r, c)
  }

  /** checkGameOver: a row-major scan that answers false at the first blocking cell. */
  method CheckGameOver(g: Grid) returns (over: bool)
    requires IsGrid(g)
    ensures over == GameOver(g)
  {
    for r := 0 to Size
      invariant forall i, j :: 0 <= i < r && 0 <= j < Size ==> !Blocking(g, i, j)
    {
      for c := 0 to Size
        invariant forall i, j :: 0 <= i < r && 0 <= j < Size ==> !Blocking(g, i, j)
        invariant forall j :: 0 <= j < c ==> !Blocking(g, r, j)
      {
        if g[r][c].None? {
          assert !GameOver(g) by { assert g[r][c].None?; }
          return false;
        }
        if c < Size - 1 && SameValue(g[r][c], g[r][c + 1]) {
          assert !GameOver(g) by { assert RightTwin(g, r, c); }
          return false;
        }
        if r < Size - 1 && SameValue(g[r][c], g[r + 1][c]) {
          assert !GameOver(g) by { assert BelowTwin(g, r, c); }
          return false;
        }
        assert !Blocking(g, r, c);
      }
    }
    forall i, j | 0 <= i < Size && 0 <= j < Size
      ensures g[i][j].Some? && !RightTwin(g, i, j) && !BelowTwin(g, i, j)
    {
      assert !Blocking(g, i, j);
    }
    return true;
  }

  /** generateEmptyGrid: a 4 by 4 grid of empty cells. */
  function EmptyGrid(): (g: Grid)
    ensures IsGrid(g) && forall r, c :: 0 <= r < Size && 0 <= c < Size ==> g[r][c].None?
  {
    seq(Size, _ => Empties(Size))
  }
}
