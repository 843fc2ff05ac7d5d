/** One match between two greedy players on a shared board. Play states the
    whole match as a function of the starting grid and the random draws of
    each turn; Game.Start runs the match loop and is proved to follow it. */
module Games {
  import opened Rules
  import opened Boards
  import opened Players

  /** The first mover (symbol 'X') and the second mover (symbol 'O'). */
  datatype Side = First | Second

  function SymbolOf(p: Side): (s: char)
    ensures s != Empty
  {
    if p == First then 'X' else 'O'
  }

  function Other(p: Side): (q: Side)
    ensures q != p && SymbolOf(q) != SymbolOf(p)
  {
    if p == First then Second else First
  }

  datatype Outcome = Win(winner: Side) | Draw

  /** One turn: who moved, the column, and whether it went through the block branch. */
  datatype Move = Move(side: Side, col: int, blocked: bool)

  /** The result of a match: its outcome, the final grid and the moves in order. */
  datatype Match = Match(outcome: Outcome, grid: Grid, moves: seq<Move>)

  /** A stream of draws that visits every column: a fair random source. */
  predicate Covers(samples: seq<int>)
  {
    forall c :: 0 <= c < Cols ==> c in samples
  }

  /** The draws of every turn are fair. */
  ghost predicate FairRolls(rolls: nat -> seq<int>)
  {
    forall t: nat :: Covers(rolls(t))
  }

  /** The result of one turn: the move made, the grid after it, and the
      two checks made on that grid. */
  datatype Turn = Turn(move: Move, grid: Grid, won: bool, full: bool)

  /** One turn of side p on g: the policy picks a legal column and the
      mover's disc is dropped there; then the mover's win and the board's
      fullness are checked. */
  function TakeTurn(g: Grid, p: Side, override: bool, samples: seq<int>): (r: Turn)
    requires WellFormed(g) && !Full(g) && Covers(samples)
    ensures r.move.side == p && CanDrop(g, r.move.col)
    ensures r.grid == Dropped(g, r.move.col, SymbolOf(p)) && WellFormed(r.grid)
    ensures r.won == HasWin(r.grid, SymbolOf(p)) && r.full == Full(r.grid)
  {
    FairDraws(g, samples);
    var me := SymbolOf(p);
    var opp := SymbolOf(Other(p));
    var col := Policy(g, me, opp, override, samples);
    var g' := Dropped(g, col, me);
    Turn(Move(p, col, Blocks(g, opp, override)), g', HasWin(g', me), Full(g'))
  }

  /** Turn t of the match, taken with its own override and draws. */
  function NextTurn(g: Grid, p: Side, t: nat, overrides: nat -> bool, rolls: nat -> seq<int>): (r: Turn)
    requires WellFormed(g) && !Full(g) && FairRolls(rolls)
    ensures r.move.side == p && CanDrop(g, r.move.col)
    ensures r.grid == Dropped(g, r.move.col, SymbolOf(p)) && WellFormed(r.grid)
    ensures r.won == HasWin(r.grid, SymbolOf(p)) && r.full == Full(r.grid)
  {
    TakeTurn(g, p, overrides(t), rolls(t))
  }

  /** Every turn fills exactly one empty cell. */
  lemma TurnFillsCell(g: Grid, p: Side, t: nat, overrides: nat -> bool, rolls: nat -> seq<int>)
    requires WellFormed(g) && !Full(g) && FairRolls(rolls)
    ensures EmptyCells(NextTurn(g, p, t, overrides, rolls).grid) == EmptyCells(g) - 1
  {
    var turn := NextTurn(g, p, t, overrides, rolls);
    FairDraws(g, rolls(t));
    DropFillsOneCell(g, turn.move.col, SymbolOf(p));
  }

  /** The match from grid g with p to move at turn t; turn t uses override
      overrides(t) and draws rolls(t). The mover's win is checked before
      fullness, and the turn passes to the other side only when neither ends
      the match. Every move fills a cell, which bounds the recursion. */
  function Play(g: Grid, p: Side, t: nat, overrides: nat -> bool, rolls: nat -> seq<int>): (m: Match)
    requires WellFormed(g) && !Full(g) && FairRolls(rolls)
    ensures WellFormed(m.grid)
    ensures 1 <= |m.moves|
    ensures m.moves[0].side == p
    ensures m.outcome.Win? ==> HasWin(m.grid, SymbolOf(m.outcome.winner))
    ensures m.outcome == Draw ==> Full(m.grid)
    decreases EmptyCells(g)
  {
    var turn := NextTurn(g, p, t, overrides, rolls);
    if turn.won then Match(Win(p), turn.grid, [turn.move])
    else if turn.full then Match(Draw, turn.grid, [turn.move])
    else
      TurnFillsCell(g, p, t, overrides, rolls);
      var rest := Play(turn.grid, Other(p), t + 1, overrides, rolls);
      Match(rest.outcome, rest.grid, [turn.move] + rest.moves)
  }

  /** A match lasts at most as many moves as the grid has empty cells, so
      at most 42 from the empty board. */
  lemma {:induction false} PlayLength(g: Grid, p: Side, t: nat, overrides: nat -> bool, rolls: nat -> seq<int>)
    requires WellFormed(g) && !Full(g) && FairRolls(rolls)
    ensures |Play(g, p, t, overrides, rolls).moves| <= EmptyCells(g) <= Rows * Cols
    decreases EmptyCells(g)
  {
    var turn := NextTurn(g, p, t, overrides, rolls);
    PlayStep(g, p, t, overrides, rolls);
    EmptyCellsRange(g);
    if !turn.won && !turn.full {
      TurnFillsCell(g, p, t, overrides, rolls);
      PlayLength(turn.grid, Other(p), t + 1, overrides, rolls);
    }
  }

  /** Number of moves of side p that blocked the opponent. */
  function BlockCount(moves: seq<Move>, p: Side): nat
  {
    if moves == [] then 0
    else (if moves[0].side == p && moves[0].blocked then 1 else 0) + BlockCount(moves[1..], p)
  }

  /** Side p's blocking moves among moves. */
  lemma BlockCountStep(mv: Move, rest: seq<Move>, q: Side)
    ensures BlockCount([mv] + rest, q) == (if mv.side == q && mv.blocked then 1 else 0) + BlockCount(rest, q)
  {
    assert ([mv] + rest)[1..] == rest;
  }

  /** One step of a match: a winning turn ends it as a win of the mover, a
      filling turn as a draw, and any other turn hands the rest of the match
      to the other side with the same outcome and final grid. */
  lemma PlayStep(g: Grid, p: Side, t: nat, overrides: nat -> bool, rolls: nat -> seq<int>)
    requires WellFormed(g) && !Full(g) && FairRolls(rolls)
    ensures var turn := NextTurn(g, p, t, overrides, rolls);
      var m := Play(g, p, t, overrides, rolls);
      (turn.won ==> m == Match(Win(p), turn.grid, [turn.move])) &&
      (!turn.won && turn.full ==> m == Match(Draw, turn.grid, [turn.move])) &&
      (!turn.won && !turn.full ==>
        var rest := Play(turn.grid, Other(p), t + 1, overrides, rolls);
        m == Match(rest.outcome, rest.grid, [turn.move] + rest.moves))
  {
  }

  // ---------------------------------------------------------------------
  // Properties of a match

  /** Each move is made by the other side than the move before it. */
  predicate Alternating(moves: seq<Move>)
  {
    forall i :: 0 < i < |moves| ==> moves[i].side == Other(moves[i - 1].side)
  }

  lemma AlternatingCons(mv: Move, rest: seq<Move>)
    requires Alternating(rest) && (rest != [] ==> rest[0].side == Other(mv.side))
    ensures Alternating([mv] + rest)
  {
    var ms := [mv] + rest;
    forall i | 0 < i < |ms|
      ensures ms[i].side == Other(ms[i - 1].side)
    {
      if i > 1 {
        assert ms[i] == rest[i - 1] && ms[i - 1] == rest[i - 2];
      }
    }
  }

  /** Turns strictly alternate, starting with the side to move. */
  lemma {:induction false} PlayAlternates(g: Grid, p: Side, t: nat, overrides: nat -> bool, rolls: nat -> seq<int>)
    requires WellFormed(g) && !Full(g) && FairRolls(rolls)
    ensures Play(g, p, t, overrides, rolls).moves[0].side == p
    ensures Alternating(Play(g, p, t, overrides, rolls).moves)
    decreases EmptyCells(g)
  {
    var turn := NextTurn(g, p, t, overrides, rolls);
    PlayStep(g, p, t, overrides, rolls);
    if !turn.won && !turn.full {
      var rest := Play(turn.grid, Other(p), t + 1, overrides, rolls);
      TurnFillsCell(g, p, t, overrides, rolls);
      PlayAlternates(turn.grid, Other(p), t + 1, overrides, rolls);
      AlternatingCons(turn.move, rest.moves);
    }
  }

  lemma LastOfCons(mv: Move, rest: seq<Move>)
    requires rest != []
    ensures ([mv] + rest)[|rest|] == rest[|rest| - 1]
  {
  }

  /** The side that did not move cannot gain four in a row by the move. */
  lemma TurnKeepsOtherWinless(g: Grid, p: Side, t: nat, overrides: nat -> bool, rolls: nat -> seq<int>)
    requires WellFormed(g) && !Full(g) && FairRolls(rolls)
    requires !HasWin(g, SymbolOf(Other(p)))
    ensures !HasWin(NextTurn(g, p, t, overrides, rolls).grid, SymbolOf(Other(p)))
  {
    var turn := NextTurn(g, p, t, overrides, rolls);
    if HasWin(turn.grid, SymbolOf(Other(p))) {
      OtherCannotWin(g, turn.move.col, SymbolOf(p), SymbolOf(Other(p)));
    }
  }

  /** A match that ends in a win is won by the side that made the last move. */
  lemma {:induction false} PlayWinnerMovedLast(g: Grid, p: Side, t: nat, overrides: nat -> bool, rolls: nat -> seq<int>)
    requires WellFormed(g) && !Full(g) && FairRolls(rolls)
    ensures var m := Play(g, p, t, overrides, rolls);
      m.outcome.Win? ==> m.outcome.winner == m.moves[|m.moves| - 1].side
    decreases EmptyCells(g)
  {
    var turn := NextTurn(g, p, t, overrides, rolls);
    PlayStep(g, p, t, overrides, rolls);
    if !turn.won && !turn.full {
      var rest := Play(turn.grid, Other(p), t + 1, overrides, rolls);
      TurnFillsCell(g, p, t, overrides, rolls);
      PlayWinnerMovedLast(turn.grid, Other(p), t + 1, overrides, rolls);
      LastOfCons(turn.move, rest.moves);
    }
  }

  /** Starting from a grid where nobody has won, the outcome is exact: the
      winner has four in a row and the loser has none; a draw is a full board
      with no four in a row for either side, so a last move that both wins
      and fills the board counts as a win. */
  lemma {:induction false} PlayOutcome(g: Grid, p: Side, t: nat, overrides: nat -> bool, rolls: nat -> seq<int>)
    requires WellFormed(g) && !Full(g) && FairRolls(rolls)
    requires !HasWin(g, SymbolOf(First)) && !HasWin(g, SymbolOf(Second))
    ensures var m := Play(g, p, t, overrides, rolls);
      (m.outcome.Win? ==>
        HasWin(m.grid, SymbolOf(m.outcome.winner)) &&
        !HasWin(m.grid, SymbolOf(Other(m.outcome.winner)))) &&
      (m.outcome == Draw ==>
        Full(m.grid) && !HasWin(m.grid, SymbolOf(First)) && !HasWin(m.grid, SymbolOf(Second)))
    decreases EmptyCells(g)
  {
    var turn := NextTurn(g, p, t, overrides, rolls);
    PlayStep(g, p, t, overrides, rolls);
    assert p == First || p == Second;
    TurnKeepsOtherWinless(g, p, t, overrides, rolls);
    if !turn.won && !turn.full {
      TurnFillsCell(g, p, t, overrides, rolls);
      PlayOutcome(turn.grid, Other(p), t + 1, overrides, rolls);
    }
  }

  /** The number of blocking moves side q makes in the match from g with p
      to move at turn t. */
  function BlocksFrom(g: Grid, p: Side, t: nat, overrides: nat -> bool, rolls: nat -> seq<int>, q: Side): nat
    requires WellFormed(g) && !Full(g) && FairRolls(rolls)
    decreases EmptyCells(g)
  {
    var turn := NextTurn(g, p, t, overrides, rolls);
    (if p == q && turn.move.blocked then 1 else 0) +
    (if turn.won || turn.full then 0 else
      TurnFillsCell(g, p, t, overrides, rolls);
      BlocksFrom(turn.grid, Other(p), t + 1, overrides, rolls, q))
  }

  /** BlocksFrom counts the blocking moves of q among the moves of the match. */
  lemma {:induction false} PlayBlocks(g: Grid, p: Side, t: nat, overrides: nat -> bool, rolls: nat -> seq<int>, q: Side)
    requires WellFormed(g) && !Full(g) && FairRolls(rolls)
    ensures BlockCount(Play(g, p, t, overrides, rolls).moves, q) == BlocksFrom(g, p, t, overrides, rolls, q)
    decreases EmptyCells(g)
  {
    var turn := NextTurn(g, p, t, overrides, rolls);
    PlayStep(g, p, t, overrides, rolls);
    if turn.won || turn.full {
      BlockCountStep(turn.move, [], q);
      assert [turn.move] + [] == [turn.move];
    } else {
      var rest := Play(turn.grid, Other(p), t + 1, overrides, rolls);
      TurnFillsCell(g, p, t, overrides, rolls);
      PlayBlocks(turn.grid, Other(p), t + 1, overrides, rolls, q);
      BlockCountStep(turn.move, rest.moves, q);
    }
  }

  /** The match from g with side to move at turn t ends as m0 does: same
      outcome and same final grid. */
  ghost predicate LeadsTo(g: Grid, side: Side, t: nat, overrides: nat -> bool, rolls: nat -> seq<int>, m0: Match)
    requires WellFormed(g) && !Full(g) && FairRolls(rolls)
  {
    var m := Play(g, side, t, overrides, rolls);
    m.outcome == m0.outcome && m.grid == m0.grid
  }

  /** One round of the match loop: a turn that wins or fills the board
      fixes the outcome and the final grid, any other turn leaves the same
      ending ahead for the other side. */
  lemma TallyStep(g: Grid, side: Side, t: nat, overrides: nat -> bool, rolls: nat -> seq<int>, m0: Match)
    requires WellFormed(g) && !Full(g) && FairRolls(rolls)
    requires LeadsTo(g, side, t, overrides, rolls, m0)
    ensures var turn := NextTurn(g, side, t, overrides, rolls);
      (turn.won ==> m0.outcome == Win(side) && m0.grid == turn.grid) &&
      (!turn.won && turn.full ==> m0.outcome == Draw && m0.grid == turn.grid) &&
      (!turn.won && !turn.full ==> LeadsTo(turn.grid, Other(side), t + 1, overrides, rolls, m0))
  {
    PlayStep(g, side, t, overrides, rolls);
  }

  // ---------------------------------------------------------------------
  // The match controller

  class Game {
    const board: Board
    const player1: GreedyPlayer
    const player2: GreedyPlayer
    var player1Wins: nat
    var player2Wins: nat
    var draws: nat

    ghost predicate Valid()
      reads board, board.grid
    {
      board.Valid() && player1 != player2 &&
      player1.board == board && player2.board == board &&
      player1.symbol == SymbolOf(First) && player1.opponent == SymbolOf(Second) &&
      player2.symbol == SymbolOf(Second) && player2.opponent == SymbolOf(First)
    }

    /** A fresh empty board shared by 'X' (player 1) and 'O' (player 2). */
    constructor ()
      ensures Valid() && fresh(board) && fresh(board.grid) && fresh(player1) && fresh(player2)
      ensures board.Cells == EmptyGrid()
      ensures player1Wins == 0 && player2Wins == 0 && draws == 0
      ensures player1.blockedMoves == 0 && player2.blockedMoves == 0
    {
      var b := new Board();
      board := b;
      player1 := new GreedyPlayer(SymbolOf(First), b, SymbolOf(Second));
      player2 := new GreedyPlayer(SymbolOf(Second), b, SymbolOf(First));
      player1Wins, player2Wins, draws := 0, 0, 0;
    }

    /** Runs the match to its end with player 1 to move first. The final
        board and the counters are those of Play: exactly one of the three
        outcome counters goes up by one, and each player's blocked-moves
        counter goes up by the number of its blocking moves. */
    method Start(overrides: nat -> bool, rolls: nat -> seq<int>)
      requires Valid() && !Full(board.Cells)
      requires FairRolls(rolls)
      modifies this, board, board.grid, player1, player2
      ensures Valid()
      ensures player1Wins + player2Wins + draws == old(player1Wins + player2Wins + draws) + 1
      ensures var m := Play(old(board.Cells), First, 0, overrides, rolls);
        board.Cells == m.grid &&
        player1Wins == old(player1Wins) + (if m.outcome == Win(First) then 1 else 0) &&
        player2Wins == old(player2Wins) + (if m.outcome == Win(Second) then 1 else 0) &&
        draws == old(draws) + (if m.outcome == Draw then 1 else 0) &&
        player1.blockedMoves == old(player1.blockedMoves) + BlockCount(m.moves, First) &&
        player2.blockedMoves == old(player2.blockedMoves) + BlockCount(m.moves, Second)
    {
      ghost var m0 := Play(board.Cells, First, 0, overrides, rolls);
      PlayBlocks(board.Cells, First, 0, overrides, rolls, First);
      PlayBlocks(board.Cells, First, 0, overrides, rolls, Second);
      ghost var n1, n2 := BlockCount(m0.moves, First), BlockCount(m0.moves, Second);
      var current := player1;
      ghost var side := First;
      var t := 0;
      while true
        invariant Valid() && !Full(board.Cells)
        invariant current == if side == First then player1 else player2
        invariant player1Wins == old(player1Wins) && player2Wins == old(player2Wins) && draws == old(draws)
        invariant LeadsTo(board.Cells, side, t, overrides, rolls, m0)
        invariant player1.blockedMoves - old(player1.blockedMoves) + BlocksFrom(board.Cells, side, t, overrides, rolls, First) == n1
        invariant player2.blockedMoves - old(player2.blockedMoves) + BlocksFrom(board.Cells, side, t, overrides, rolls, Second) == n2
        decreases EmptyCells(board.Cells)
      {
        ghost var g := board.Cells;
        ghost var turn := NextTurn(g, side, t, overrides, rolls);
        TallyStep(g, side, t, overrides, rolls, m0);
        TurnFillsCell(g, side, t, overrides, rolls);
        assert turn == TakeTurn(g, side, overrides(t), rolls(t));

        var won, full := PlayTurn(current, side, overrides(t), rolls(t));
        assert board.Cells == turn.grid && won == turn.won && full == (!turn.won && turn.full);
        if won {
          if current == player1 {
            player1Wins := player1Wins + 1;
          } else {
            player2Wins := player2Wins + 1;
          }
          break;
        }
        if full {
          draws := draws + 1;
          break;
        }

        current := if current == player1 then player2 else player1;
        side := Other(side);
        t := t + 1;
      }
    }

    /** The body of one round of the match loop: the current player picks a
        column, its disc is dropped there, and the board is checked for that
        player's win and, failing that, for a full board. */
    method PlayTurn(current: GreedyPlayer, ghost side: Side, override: bool, samples: seq<int>)
      returns (won: bool, full: bool)
      requires Valid() && !Full(board.Cells) && Covers(samples)
      requires current == if side == First then player1 else player2
      modifies board, board.grid, player1, player2
      ensures Valid()
      ensures var turn := TakeTurn(old(board.Cells), side, override, samples);
        board.Cells == turn.grid && won == turn.won && full == (!turn.won && turn.full) &&
        player1.blockedMoves == old(player1.blockedMoves) + (if side == First && turn.move.blocked then 1 else 0) &&
        player2.blockedMoves == old(player2.blockedMoves) + (if side == Second && turn.move.blocked then 1 else 0)
    {
      ghost var turn := TakeTurn(board.Cells, side, override, samples);
      FairDraws(board.Cells, samples);
      var col := current.ChooseMove(override, samples);
      var _ := board.DropDisc(col, current.symbol);
      won := board.CheckWin(current.symbol);
      full := false;
      if !won {
        full := board.IsFull();
      }
    }
  }
}
