/** The two functions of puissance4.py that the source leaves unfinished, as written, with an
    input on which each disagrees with the completed version the rest of the model uses. */
module AsWritten {
  import opened Board
  import opened Winner

  /** is_valid_move as written: False for a column off the board, and for a column on the
      board the function falls off its end and returns None. Both are false in the `if` of the
      caller, so the result is modelled as the truth value the caller sees. */
  function IsValidMoveAsWritten(g: Grid, col: int): (ok: bool)
    requires WellFormed(g)
    ensures !ok
  {
    if col < 0 || col >= |g[0]| then false
    else false
  }

  /** The stub rejects a column into which make_move can drop a token: column 0 of the empty
      board, which the completed is_valid_move accepts. */
  lemma IsValidMoveAsWrittenRejectsPlayableColumn()
    ensures MakeMove(CreateBoard(), 0, 1).success
    ensures !IsValidMoveAsWritten(CreateBoard(), 0)
    ensures IsValidMove(CreateBoard(), 0)
  {
    var g := CreateBoard();
    assert g[ROWS - 1][0] == EMPTY;
  }

  /** is_winner as written: its body is `pass`, so it returns None, which is false. */
  function IsWinnerAsWritten(g: Grid, p: int): (won: bool)
    requires WellFormed(g)
    ensures !won
  {
    false
  }

  /** evaluate on top of the stub: every position scores 0. */
  function EvaluateAsWritten(g: Grid): (s: int)
    requires WellFormed(g)
    ensures s == 0
  {
    if IsWinnerAsWritten(g, 1) then WIN
    else if IsWinnerAsWritten(g, -1) then -WIN
    else 0
  }

  /** The stub misses a win: with four tokens of player 1 along the bottom row, player 1 has
      a line of four, the completed is_winner reports it and evaluate scores WIN, while the
      stub reports no winner and its evaluate scores 0. */
  lemma IsWinnerAsWrittenMissesBottomRow()
    ensures HasFour(LineBoard(ROWS - 1, 0, Horizontal, 1), 1)
    ensures IsWinner(LineBoard(ROWS - 1, 0, Horizontal, 1), 1)
    ensures Evaluate(LineBoard(ROWS - 1, 0, Horizontal, 1)) == WIN
    ensures !IsWinnerAsWritten(LineBoard(ROWS - 1, 0, Horizontal, 1), 1)
    ensures EvaluateAsWritten(LineBoard(ROWS - 1, 0, Horizontal, 1)) == 0
  {
    var g := LineBoard(ROWS - 1, 0, Horizontal, 1);
    DetectsEveryOrientation(ROWS - 1, 0, Horizontal, 1);
    IsWinnerIffHasFour(g, 1);
  }
}
