/**
 * The module-level state of the local game (the board, the player to move and
 * whether the game is still running) and the three operations that change it:
 * a click on a cell, the result check that follows it, and a reset.
 */
module LocalGame {
  import opened Board

  /** What a click did: nothing, or placed a mark and led to `outcome`. */
  datatype Move = Ignored | Played(outcome: Outcome)

  class Game {
    var board: array<Cell>
    var currentPlayer: Mark
    var gameActive: bool

    /** The board has its nine cells. */
    ghost predicate WellFormed()
      reads this
    {
      board.Length == Size
    }

    /** Nine cells, and the invariant of every state reachable from a reset. */
    ghost predicate Valid()
      reads this, board
    {
      WellFormed() && Consistent(board[..], currentPlayer, gameActive)
    }

    /** The initial state: an empty board, X to move, the game running. */
    constructor ()
      ensures Valid() && fresh(board)
      ensures board[..] == EmptyBoard() && currentPlayer == X && gameActive
    {
      board := new Cell[Size](_ => Empty);
      currentPlayer := X;
      gameActive := true;
      new;
      assert board[..] == EmptyBoard();
      EmptyBoardConsistent();
    }

    /**
     * A click on cell `i`. A filled cell or a finished game ignores it and
     * nothing changes. Otherwise the current player's mark goes into cell `i`,
     * no other cell changes, and the result check runs.
     */
    method Click(i: nat) returns (m: Move)
      requires Valid() && i < Size
      modifies this, board
      ensures Valid() && board == old(board)
      ensures m.Ignored? <==> old(board[i]) != Empty || !old(gameActive)
      ensures m.Ignored? ==>
        board[..] == old(board[..]) && currentPlayer == old(currentPlayer) && gameActive == old(gameActive)
      ensures m.Played? ==>
        board[..] == old(board[..])[i := Marked(old(currentPlayer))] &&
        m.outcome == Evaluate(board[..], old(currentPlayer)) &&
        gameActive == m.outcome.Next? &&
        currentPlayer == (if m.outcome.Next? then Other(old(currentPlayer)) else old(currentPlayer))
      ensures m.Played? && m.outcome.Won? ==>
        m.outcome.winner == old(currentPlayer) &&
        board[m.outcome.combo.a] == Marked(old(currentPlayer)) && Contains(m.outcome.combo, i)
    {
      if board[i] != Empty || !gameActive {
        return Ignored;
      }
      ghost var s, p := board[..], currentPlayer;
      board[i] := Marked(currentPlayer);
      assert board[..] == s[i := Marked(p)];
      PlayKeepsConsistent(s, p, i);
      WinnerIsMover(s, p, i);
      var r := CheckResult();
      m := Played(r);
    }

    /**
     * Scans the winning combinations in order and stops at the first uniform
     * one: a win for the current player, who stays the current player, and the
     * game stops. Without a win, a board with no empty cell is a tie and the
     * game stops. Otherwise the other player is to move.
     */
    method CheckResult() returns (r: Outcome)
      requires WellFormed()
      modifies this`currentPlayer, this`gameActive
      ensures r == Evaluate(board[..], old(currentPlayer))
      ensures gameActive == (r.Next? && old(gameActive))
      ensures currentPlayer == (if r.Next? then Other(old(currentPlayer)) else old(currentPlayer))
    {
      var roundWon := false;
      var winningCombo := Combo(0, 0, 0);
      var i := 0;
      while i < |WinningCombinations|
        invariant 0 <= i <= |WinningCombinations|
        invariant !roundWon
        invariant forall l :: 0 <= l < i ==> !Uniform(board[..], WinningCombinations[l])
      {
        if Uniform(board[..], WinningCombinations[i]) {
          roundWon := true;
          winningCombo := WinningCombinations[i];
          break;
        }
        i := i + 1;
      }

      if roundWon {
        gameActive := false;
        return Won(currentPlayer, winningCombo);
      }

      if Empty !in board[..] {
        gameActive := false;
        return Tie;
      }

      currentPlayer := Other(currentPlayer);
      r := Next(currentPlayer);
    }

    /** Whatever the prior state: a new empty board, X to move, the game running. */
    method Reset()
      modifies this
      ensures Valid() && fresh(board)
      ensures board[..] == EmptyBoard() && currentPlayer == X && gameActive
    {
      board := new Cell[Size](_ => Empty);
      currentPlayer := X;
      gameActive := true;
      assert board[..] == EmptyBoard();
      EmptyBoardConsistent();
    }
  }
}
