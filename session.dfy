/** The state kept by the useGame hook (src/hooks/useGame.ts) and the three actions that
    change it: incScore, move and initGame. `Step` and `Restarted` say what move and initGame
    do to the whole state; the class `Game` updates its fields as the hook does and is proved
    to agree with them. */
module Session {
  import opened Board
  import opened Primitives
  import opened Resolver
  import opened Spawn

  /** The larger of two scores. */
  function Max(a: int, b: int): (m: int)
    ensures m >= a && m >= b && (m == a || m == b)
  {
    if a >= b then a else b
  }

  /** The hook's five pieces of state. */
  datatype GameState = GameState(grid: Grid, score: int, highScore: int, isGameOver: bool, hasWon: bool)

  /** Every tile is a power of two of at least 2, no tile is left flagged merged between
      moves, and the best score is never below the score. */
  predicate Consistent(s: GameState) {
    GoodGrid(s.grid) && Unmerged(s.grid) && 0 <= s.score <= s.highScore
  }

  /** Whether the game has ended, won or lost. */
  predicate Finished(s: GameState) {
    s.isGameOver || s.hasWon
  }

  /** move(dir): the state after one move. */
  function Step(s: GameState, dir: Dir, choice: nat, four: bool): GameState
    requires IsGrid(s.grid)
  {
    if Finished(s) then s else Apply(s, MovedGrid(s.grid, dir), choice, four)
  }

  /** The rest of move once getMovedGrid has produced the moved grid and the values reported
      to incScore: an unchanged grid is rejected; otherwise the score is raised, a tile is
      added, and a win is checked before a loss. */
  function Apply(s: GameState, moved: (Grid, seq<int>), choice: nat, four: bool): GameState
    requires IsGrid(moved.0)
  {
    if moved.0 == s.grid then s
    else
      var score := s.score + Sum(moved.1);
      var grid := Spawned(moved.0, choice, four);
      var won := Shows(grid, Goal);
      GameState(grid, score, Max(s.highScore, score), !won && GameOver(grid), won)
  }

  /** initGame: the state after a restart. */
  function Restarted(s: GameState, choice1: nat, four1: bool, choice2: nat, four2: bool): GameState {
    s.(grid := Spawned(Spawned(EmptyGrid(), choice1, four1), choice2, four2),
       score := 0, isGameOver := false, hasWon := false)
  }

  class Game {
    var grid: Grid
    var score: int
    var highScore: int
    var isGameOver: bool
    var hasWon: bool

    function Current(): GameState
      reads this
    {
      GameState(grid, score, highScore, isGameOver, hasWon)
    }

    ghost predicate Valid()
      reads this
    {
      Consistent(Current())
    }

    /** The hook's initial state followed by the initGame effect; the best score is the one
        read back from storage. */
    constructor (storedHighScore: nat, choice1: nat, four1: bool, choice2: nat, four2: bool)
      ensures Valid()
      ensures Current() ==
        Restarted(GameState(EmptyGrid(), 0, storedHighScore, false, false), choice1, four1, choice2, four2)
    {
      grid := EmptyGrid();
      score := 0;
      highScore := storedHighScore;
      isGameOver := false;
      hasWon := false;
      new;
      EmptyGridConsistent(storedHighScore);
      InitGame(choice1, four1, choice2, four2);
    }

    /** incScore(v): `seen` is the best score the callback captured when it was created,
        which is what each new score is compared with. */
    method IncScore(v: int, seen: int)
      modifies this`score, this`highScore
      ensures score == old(score) + v
      ensures highScore == if score > seen then score else old(highScore)
    {
      var newScore := score + v;
      if newScore > seen {
        highScore := newScore;
      }
      score := newScore;
    }

    /** The incScore calls of one move, one per merge in the order the merges happen, all
        through the callback created before the move. */
    method AddGains(gains: seq<int>)
      requires forall k :: 0 <= k < |gains| ==> gains[k] >= 4
      requires 0 <= score <= highScore
      modifies this`score, this`highScore
      ensures old(score) <= score && score == old(score) + Sum(gains)
      ensures highScore == Max(old(highScore), score)
    {
      var seen := highScore;
      for k := 0 to |gains|
        invariant score == old(score) + Sum(gains[..k])
        invariant highScore == Max(seen, score)
        invariant old(score) <= score
      {
        assert gains[..k + 1] == gains[..k] + [gains[k]];
        SumAppend(gains[..k], [gains[k]]);
        IncScore(gains[k], seen);
      }
      assert gains[..|gains|] == gains;
    }

    /** initGame (restart). */
    method InitGame(choice1: nat, four1: bool, choice2: nat, four2: bool)
      requires Valid()
      modifies this
      ensures Valid()
      ensures Current() == Restarted(old(Current()), choice1, four1, choice2, four2)
    {
      score := 0;
      isGameOver := false;
      hasWon := false;
      var first := AddRandomTile(EmptyGrid(), choice1, four1);
      var second := AddRandomTile(first, choice2, four2);
      grid := second;
      RestartSpec(old(Current()), choice1, four1, choice2, four2);
    }

    /** move(dir). */
    method Move(dir: Dir, choice: nat, four: bool)
      requires Valid()
      modifies this
      ensures Valid()
      ensures Current() == Step(old(Current()), dir, choice, four)
    {
      if isGameOver || hasWon {
        return;
      }
      var moved := MovedGrid(grid, dir);
      ScoreOfMove(grid, dir);
      StepSpec(Current(), dir, choice, four);
      Finish(moved, choice, four);
    }

    /** What move does with the result of getMovedGrid. */
    method Finish(moved: (Grid, seq<int>), choice: nat, four: bool)
      requires IsGrid(moved.0) && 0 <= score <= highScore && !isGameOver && !hasWon
      requires forall k :: 0 <= k < |moved.1| ==> moved.1[k] >= 4
      requires moved.0 == grid ==> moved.1 == []
      modifies this
      ensures Current() == Apply(old(Current()), moved, choice, four)
    {
      var next := moved.0;
      AddGains(moved.1);
      if next != grid {
        Settle(next, choice, four);
      }
    }

    /** The rest of a move that changed the board: add a tile, then a 2048 tile wins and,
        failing that, a board with no move left ends the game. */
    method Settle(next: Grid, choice: nat, four: bool)
      requires IsGrid(next) && !isGameOver && !hasWon
      modifies this`grid, this`hasWon, this`isGameOver
      ensures grid == Spawned(next, choice, four)
      ensures hasWon == Shows(grid, Goal)
      ensures isGameOver == (!hasWon && GameOver(grid))
    {
      var withNew := AddRandomTile(next, choice, four);
      grid := withNew;
      if Shows(withNew, Goal) {
        hasWon := true;
      } else {
        var over := CheckGameOver(withNew);
        if over {
          isGameOver := true;
        }
      }
    }
  }

  /** What a move reports to incScore: one gain of at least 4 per merge, nothing when the
      board does not change, and in total the value of the tiles the move merged. */
  lemma ScoreOfMove(g: Grid, dir: Dir)
    requires GoodGrid(g) && Unmerged(g)
    ensures forall k :: 0 <= k < |MovedGrid(g, dir).1| ==> MovedGrid(g, dir).1[k] >= 4
    ensures MovedGrid(g, dir).0 == g ==> MovedGrid(g, dir).1 == []
    ensures Sum(MovedGrid(g, dir).1) == GridTotal(MovedGrid(g, dir).0, MergedValue)
    ensures Sum(MovedGrid(g, dir).1) >= 0
  {
    MovedGridGood(g, dir);
    SumNonNegative(MovedGrid(g, dir).1);
    MovedGridNoOp(g, dir);
    MovedGridScore(g, dir);
  }

  /** A board with no merged hints has no merged value. */
  lemma UnmergedTotal(g: Grid)
    requires IsGrid(g) && Unmerged(g)
    ensures GridTotal(g, MergedValue) == 0
  {
    GridTotalOfSixteen(g, MergedValue);
  }

  /** The tile added after a move that changed the board: the board had room for it, it
      keeps every tile a power of two, and it clears every merge flag. */
  lemma SpawnAfterMove(g: Grid, dir: Dir, choice: nat, four: bool)
    requires GoodGrid(g) && MovedGrid(g, dir).0 != g
    ensures GoodGrid(Spawned(MovedGrid(g, dir).0, choice, four))
    ensures Unmerged(Spawned(MovedGrid(g, dir).0, choice, four))
    ensures TileCount(Spawned(MovedGrid(g, dir).0, choice, four)) == TileCount(MovedGrid(g, dir).0) + 1
  {
    var next := MovedGrid(g, dir).0;
    if Full(next) {
      MovedGridFull(g, dir);
    }
    MovedGridGood(g, dir);
    SpawnedSpec(next, choice, four);
    SpawnedGood(next, choice, four);
  }

  /** One move keeps the state consistent and never lowers the score or the best score. A
      finished game ignores moves, and so does a move that changes nothing on the board.
      Otherwise the score grows by the values of the tiles the
      move merged, and the best score becomes the larger of itself and the new score. */
  lemma StepSpec(s: GameState, dir: Dir, choice: nat, four: bool)
    requires Consistent(s)
    ensures Consistent(Step(s, dir, choice, four))
    ensures s.score <= Step(s, dir, choice, four).score
    ensures s.highScore <= Step(s, dir, choice, four).highScore
    ensures Finished(s) || MovedGrid(s.grid, dir).0 == s.grid ==> Step(s, dir, choice, four) == s
    ensures !Finished(s) ==>
      Step(s, dir, choice, four).score == s.score + GridTotal(MovedGrid(s.grid, dir).0, MergedValue)
      && Step(s, dir, choice, four).highScore == Max(s.highScore, Step(s, dir, choice, four).score)
  {
    if !Finished(s) {
      var g := s.grid;
      ScoreOfMove(g, dir);
      if MovedGrid(g, dir).0 == g {
        UnmergedTotal(g);
      } else {
        SpawnAfterMove(g, dir, choice, four);
      }
    }
  }

  /** A move that changes the board removes one tile per merge and adds one new tile. */
  lemma StepTiles(s: GameState, dir: Dir, choice: nat, four: bool)
    requires Consistent(s) && !Finished(s) && MovedGrid(s.grid, dir).0 != s.grid
    ensures TileCount(Step(s, dir, choice, four).grid)
         == TileCount(s.grid) - |MovedGrid(s.grid, dir).1| + 1
  {
    SpawnAfterMove(s.grid, dir, choice, four);
    MovedGridConserves(s.grid, dir);
  }

  /** A move ends the game only in a win, shown by a 2048 tile, or in a loss, where no
      direction can change the board any more; never in both. */
  lemma StepEnds(s: GameState, dir: Dir, choice: nat, four: bool)
    requires Consistent(s) && !Finished(s)
    ensures var t := Step(s, dir, choice, four);
      (t.hasWon ==> Shows(t.grid, Goal) && !t.isGameOver)
      && (t.isGameOver ==> forall d :: MovedGrid(t.grid, d).0 == t.grid)
  {
    var t := Step(s, dir, choice, four);
    if t.isGameOver {
      GameOverIffStuck(t.grid);
      assert forall d :: MovedGrid(t.grid, d).0 == t.grid by {
        forall d ensures MovedGrid(t.grid, d).0 == t.grid {
          match d
          case Left =>
          case Right =>
          case Up =>
          case Down =>
        }
      }
    }
  }

  /** initGame: score 0, both flags off, the best score untouched, and a board holding exactly
      two new tiles, none merged. */
  lemma RestartSpec(s: GameState, choice1: nat, four1: bool, choice2: nat, four2: bool)
    requires 0 <= s.highScore
    ensures Consistent(Restarted(s, choice1, four1, choice2, four2))
    ensures Restarted(s, choice1, four1, choice2, four2).score == 0
    ensures Restarted(s, choice1, four1, choice2, four2).highScore == s.highScore
    ensures !Finished(Restarted(s, choice1, four1, choice2, four2))
    ensures TileCount(Restarted(s, choice1, four1, choice2, four2).grid) == 2
  {
    SpawnedStart(choice1, four1, choice2, four2);
  }

  /** The state before initGame runs is consistent. */
  lemma EmptyGridConsistent(high: nat)
    ensures Consistent(GameState(EmptyGrid(), 0, high, false, false))
  {
    var e := EmptyGrid();
    forall i | 0 <= i < Size ensures GoodRow(e[i]) && RowUnmerged(e[i]) {
      assert forall j :: 0 <= j < Size ==> e[i][j].None?;
    }
  }

  /** The two tiles placed by initGame: the board holds exactly two tiles, each a fresh
      2 or 4. */
  lemma SpawnedStart(choice1: nat, four1: bool, choice2: nat, four2: bool)
    ensures GoodGrid(Spawned(Spawned(EmptyGrid(), choice1, four1), choice2, four2))
    ensures Unmerged(Spawned(Spawned(EmptyGrid(), choice1, four1), choice2, four2))
    ensures TileCount(Spawned(Spawned(EmptyGrid(), choice1, four1), choice2, four2)) == 2
  {
    var e := EmptyGrid();
    var first := Spawned(e, choice1, four1);
    EmptyGridConsistent(0);
    assert !Full(e) by {
      assert e[0][0].None?;
    }
    CountBounds(e);
    SpawnedSpec(e, choice1, four1);
    SpawnedGood(e, choice1, four1);
    CountBounds(first);
    SpawnedSpec(first, choice2, four2);
    SpawnedGood(first, choice2, four2);
  }
}
