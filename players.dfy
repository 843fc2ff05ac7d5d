/** The greedy move policy. Policy states, as a function of the grid and of
    the random draws, which column a GreedyPlayer picks; the class carries
    out that choice by speculative drops on the shared board, each undone. */
module Players {
  import opened Rules
  import opened Boards

  /** The column bound written into the player's three loops; it equals Cols. */
  const SearchWidth: int := 7

  /** Dropping s into col is legal and gives s four in a row. */
  predicate WinsBy(g: Grid, col: int, s: char)
    requires WellFormed(g)
  {
    CanDrop(g, col) && HasWin(Dropped(g, col, s), s)
  }

  /** The lowest column from `from` on where a drop of s wins, or Cols if none. */
  function FirstWinning(g: Grid, s: char, from: nat): (c: nat)
    requires WellFormed(g) && from <= Cols
    ensures from <= c <= Cols
    ensures c < Cols ==> WinsBy(g, c, s)
    ensures forall k :: from <= k < c ==> !WinsBy(g, k, s)
    decreases Cols - from
  {
    if from == Cols then Cols
    else if WinsBy(g, from, s) then from
    else FirstWinning(g, s, from + 1)
  }

  /** The random draws contain a column that accepts a drop: the fairness
      assumption under which the resampling loop ends. */
  predicate SomeLegal(g: Grid, samples: seq<int>)
    requires WellFormed(g)
  {
    exists i :: 0 <= i < |samples| && CanDrop(g, samples[i])
  }

  /** The index of the first legal draw at or after `from`. */
  function FirstLegalDraw(g: Grid, samples: seq<int>, from: nat): (i: nat)
    requires WellFormed(g)
    requires exists j :: from <= j < |samples| && CanDrop(g, samples[j])
    ensures from <= i < |samples| && CanDrop(g, samples[i])
    ensures forall j :: from <= j < i ==> !CanDrop(g, samples[j])
    decreases |samples| - from
  {
    if CanDrop(g, samples[from]) then from
    else FirstLegalDraw(g, samples, from + 1)
  }

  /** The column the resampling loop settles on: the first legal draw. */
  function RandomMove(g: Grid, samples: seq<int>): int
    requires WellFormed(g) && SomeLegal(g, samples)
  {
    samples[FirstLegalDraw(g, samples, 0)]
  }

  /** The choice goes through the block branch. */
  predicate Blocks(g: Grid, opp: char, override: bool)
    requires WellFormed(g)
  {
    !override && FirstWinning(g, opp, 0) < Cols
  }

  /** The column the player picks: the random override first, then the
      lowest column that blocks opp, then the lowest column that wins for
      me, then the first legal random draw. */
  function Policy(g: Grid, me: char, opp: char, override: bool, samples: seq<int>): (col: int)
    requires WellFormed(g) && SomeLegal(g, samples)
    ensures CanDrop(g, col)
  {
    if override then RandomMove(g, samples)
    else if FirstWinning(g, opp, 0) < Cols then FirstWinning(g, opp, 0)
    else if FirstWinning(g, me, 0) < Cols then FirstWinning(g, me, 0)
    else RandomMove(g, samples)
  }

  // ---------------------------------------------------------------------
  // Properties of the policy

  /** Without the override, any column where opp would win forces a block,
      and the block is the lowest such column, whatever me could win. */
  lemma BlockHasPriority(g: Grid, me: char, opp: char, samples: seq<int>, c: int)
    requires WellFormed(g) && SomeLegal(g, samples) && WinsBy(g, c, opp)
    ensures Blocks(g, opp, false)
    ensures var col := Policy(g, me, opp, false, samples);
      WinsBy(g, col, opp) && col <= c &&
      forall k :: 0 <= k < col ==> !WinsBy(g, k, opp)
  {
  }

  /** With nothing to block and no override, the player takes the lowest
      column that wins for itself. */
  lemma WinWhenNothingToBlock(g: Grid, me: char, opp: char, samples: seq<int>, c: int)
    requires WellFormed(g) && SomeLegal(g, samples)
    requires forall k :: !WinsBy(g, k, opp)
    requires WinsBy(g, c, me)
    ensures !Blocks(g, opp, false)
    ensures var col := Policy(g, me, opp, false, samples);
      WinsBy(g, col, me) && col <= c &&
      forall k :: 0 <= k < col ==> !WinsBy(g, k, me)
  {
  }

  /** The random draw decides when the override fires, or when there is
      neither a block nor a win; it is the first legal draw. */
  lemma RandomOtherwise(g: Grid, me: char, opp: char, override: bool, samples: seq<int>)
    requires WellFormed(g) && SomeLegal(g, samples)
    requires override || forall k :: !WinsBy(g, k, opp) && !WinsBy(g, k, me)
    ensures !Blocks(g, opp, override)
    ensures var col := Policy(g, me, opp, override, samples);
      exists i :: 0 <= i < |samples| && col == samples[i] &&
        forall j :: 0 <= j < i ==> !CanDrop(g, samples[j])
  {
    var i := FirstLegalDraw(g, samples, 0);
    assert Policy(g, me, opp, override, samples) == samples[i];
  }

  /** The block branch is taken exactly when the override does not fire and
      some column lets opp win. */
  lemma BlocksIff(g: Grid, opp: char, override: bool)
    requires WellFormed(g)
    ensures Blocks(g, opp, override) <==> !override && exists c :: WinsBy(g, c, opp)
  {
    if !override && exists c :: WinsBy(g, c, opp) {
      var c :| WinsBy(g, c, opp);
      assert FirstWinning(g, opp, 0) <= c;
    }
  }

  /** Legal draws exist only on a board that is not full; on such a board
      any stream that visits every column is fair. */
  lemma FairDraws(g: Grid, samples: seq<int>)
    requires WellFormed(g)
    ensures SomeLegal(g, samples) ==> !Full(g)
    ensures !Full(g) && (forall c :: 0 <= c < Cols ==> c in samples) ==> SomeLegal(g, samples)
  {
    if !Full(g) && (forall c :: 0 <= c < Cols ==> c in samples) {
      var c :| 0 <= c < Cols && g[0][c] == Empty;
      assert c in samples;
      var i :| 0 <= i < |samples| && samples[i] == c;
      assert CanDrop(g, samples[i]);
    }
  }

  // ---------------------------------------------------------------------
  // The player

  class GreedyPlayer {
    const symbol: char
    const opponent: char
    const board: Board
    var blockedMoves: nat

    ghost predicate Valid()
      reads board, board.grid
    {
      board.Valid() && symbol != Empty && opponent != Empty
    }

    constructor (symbol: char, board: Board, opponent: char)
      requires board.Valid() && symbol != Empty && opponent != Empty
      ensures Valid()
      ensures this.symbol == symbol && this.board == board && this.opponent == opponent
      ensures blockedMoves == 0
    {
      this.symbol := symbol;
      this.board := board;
      this.opponent := opponent;
      blockedMoves := 0;
    }

    /** Picks a column by Policy. Every speculative drop is undone, so the
        board ends as it started; a block bumps blockedMoves by one. */
    method ChooseMove(override: bool, samples: seq<int>) returns (col: int)
      requires Valid() && SomeLegal(board.Cells, samples)
      modifies this, board, board.grid
      ensures Valid() && board.Cells == old(board.Cells)
      ensures col == Policy(old(board.Cells), symbol, opponent, override, samples)
      ensures blockedMoves == old(blockedMoves) + if Blocks(old(board.Cells), opponent, override) then 1 else 0
    {
      if override {
        col := MakeRandomMove(samples);
        return;
      }
      ghost var g := board.Cells;

      var c := 0;
      while c < SearchWidth
        invariant 0 <= c <= Cols
        invariant board.Valid() && board.Cells == g && blockedMoves == old(blockedMoves)
        invariant forall k :: 0 <= k < c ==> !WinsBy(g, k, opponent)
      {
        var wins := TryDrop(c, opponent);
        if wins {
          blockedMoves := blockedMoves + 1;
          assert FirstWinning(g, opponent, 0) == c;
          return c;
        }
        c := c + 1;
      }

      c := 0;
      while c < SearchWidth
        invariant 0 <= c <= Cols
        invariant board.Valid() && board.Cells == g && blockedMoves == old(blockedMoves)
        invariant forall k :: 0 <= k < c ==> !WinsBy(g, k, symbol)
      {
        var wins := TryDrop(c, symbol);
        if wins {
          assert FirstWinning(g, symbol, 0) == c;
          return c;
        }
        c := c + 1;
      }

      col := MakeRandomMove(samples);
    }

    /** One speculative step of the search: drop s into col, check whether s
        wins, and take the disc off again if the drop succeeded. */
    method TryDrop(col: int, s: char) returns (wins: bool)
      requires Valid() && s != Empty
      modifies board, board.grid
      ensures Valid() && board.Cells == old(board.Cells)
      ensures wins == WinsBy(old(board.Cells), col, s)
    {
      ghost var g := board.Cells;
      wins := false;
      var dropped := board.DropDisc(col, s);
      if dropped {
        wins := board.CheckWin(s);
        DropThenRemove(g, col, s);
        board.RemoveTopDisc(col);
      }
    }

    /** Resamples the draws until one accepts a drop, undoes that drop and
        returns the column: the first legal draw. */
    method MakeRandomMove(samples: seq<int>) returns (col: int)
      requires Valid() && SomeLegal(board.Cells, samples)
      modifies board, board.grid
      ensures Valid() && board.Cells == old(board.Cells)
      ensures col == RandomMove(old(board.Cells), samples)
    {
      ghost var g := board.Cells;
      col := DropRandom(samples);
      DropThenRemove(g, col, symbol);
      board.RemoveTopDisc(col);
    }

    /** The resampling loop: draws until a drop succeeds, leaving that disc
        on the board. */
    method DropRandom(samples: seq<int>) returns (col: int)
      requires Valid() && SomeLegal(board.Cells, samples)
      modifies board, board.grid
      ensures Valid() && col == RandomMove(old(board.Cells), samples)
      ensures CanDrop(old(board.Cells), col) && board.Cells == Dropped(old(board.Cells), col, symbol)
    {
      ghost var g := board.Cells;
      ghost var target := FirstLegalDraw(g, samples, 0);
      var i := 0;
      col := samples[i];
      var ok := board.DropDisc(col, symbol);
      while !ok
        invariant 0 <= i <= target && col == samples[i]
        invariant board.Valid()
        invariant forall j :: 0 <= j < i ==> !CanDrop(g, samples[j])
        invariant ok == CanDrop(g, col)
        invariant board.Cells == if ok then Dropped(g, col, symbol) else g
        decreases target - i
      {
        i := i + 1;
        col := samples[i];
        ok := board.DropDisc(col, symbol);
      }
    }
  }
}
