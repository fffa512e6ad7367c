/** Win detection and the static evaluation of puissance4.py. The source leaves is_winner
    as a stub; IsWinner is the completed version: four consecutive cells of one player
    horizontally, vertically or on either diagonal. HasFour is the reference definition
    it is proved equal to. */
module Winner {
  import opened Board

  /** The score evaluate gives a won position. */
  const WIN: int := 1000

  /** The four line orientations a win can take. */
  datatype Direction = Horizontal | Vertical | DiagonalDown | DiagonalUp

  /** The (row, column) step between consecutive cells of a line. Rows grow downwards, so
      DiagonalDown runs towards the bottom right and DiagonalUp towards the top right. */
  function Step(d: Direction): (int, int)
  {
    match d
    case Horizontal => (0, 1)
    case Vertical => (1, 0)
    case DiagonalDown => (1, 1)
    case DiagonalUp => (-1, 1)
  }

  /** Cell (r, c) is on the board and holds player p. */
  predicate Holds(g: Grid, p: int, r: int, c: int)
    requires WellFormed(g)
  {
    InBounds(r, c) && g[r][c] == p
  }

  /** Player p holds the k consecutive cells starting at (r, c) in direction d. */
  predicate Run(g: Grid, p: int, r: int, c: int, d: Direction, k: nat)
    requires WellFormed(g)
    decreases k
  {
    k == 0 || (Holds(g, p, r, c) && Run(g, p, r + Step(d).0, c + Step(d).1, d, k - 1))
  }

  /** Player p holds the four cells starting at (r, c) in direction d. */
  predicate FourFrom(g: Grid, p: int, r: int, c: int, d: Direction)
    requires WellFormed(g)
  {
    Run(g, p, r, c, d, 4)
  }

  /** Reference definition: player p has four in a line somewhere on the board. */
  ghost predicate HasFour(g: Grid, p: int)
    requires WellFormed(g)
  {
    exists r, c, d :: FourFrom(g, p, r, c, d)
  }

  /** Some line of four of player p starts at (r, c). */
  predicate WinAt(g: Grid, p: int, r: int, c: int)
    requires WellFormed(g)
  {
    || FourFrom(g, p, r, c, Horizontal)
    || FourFrom(g, p, r, c, Vertical)
    || FourFrom(g, p, r, c, DiagonalDown)
    || FourFrom(g, p, r, c, DiagonalUp)
  }

  /** Scan of row r from column c rightwards. */
  function WinInRow(g: Grid, p: int, r: int, c: nat): bool
    requires WellFormed(g)
    decreases COLS - c
  {
    if c >= COLS then false
    else WinAt(g, p, r, c) || WinInRow(g, p, r, c + 1)
  }

  /** Scan of rows r, r + 1, ..., ROWS - 1. */
  function WinFromRow(g: Grid, p: int, r: nat): bool
    requires WellFormed(g)
    decreases ROWS - r
  {
    if r >= ROWS then false
    else WinInRow(g, p, r, 0) || WinFromRow(g, p, r + 1)
  }

  /** is_winner, completed: every cell is tried as the start of a line in all four directions. */
  function IsWinner(g: Grid, p: int): bool
    requires WellFormed(g)
  {
    WinFromRow(g, p, 0)
  }

  /** evaluate: +WIN when player 1 has won, otherwise -WIN when player -1 has won, otherwise 0. */
  function Evaluate(g: Grid): (s: int)
    requires WellFormed(g)
    ensures s == WIN || s == 0 || s == -WIN
  {
    if IsWinner(g, 1) then WIN
    else if IsWinner(g, -1) then -WIN
    else 0
  }

  lemma {:induction false} WinInRowFinds(g: Grid, p: int, r: int, c: nat)
    requires WellFormed(g)
    ensures WinInRow(g, p, r, c) <==> exists j :: c <= j < COLS && WinAt(g, p, r, j)
    decreases COLS - c
  {
    if c < COLS {
      WinInRowFinds(g, p, r, c + 1);
    }
  }

  lemma {:induction false} WinFromRowFinds(g: Grid, p: int, r: nat)
    requires WellFormed(g)
    ensures WinFromRow(g, p, r) <==> exists i, j :: r <= i < ROWS && 0 <= j < COLS && WinAt(g, p, i, j)
    decreases ROWS - r
  {
    if r < ROWS {
      WinInRowFinds(g, p, r, 0);
      WinFromRowFinds(g, p, r + 1);
    }
  }

  /** The completed is_winner holds exactly when the player has four in a line. */
  lemma IsWinnerIffHasFour(g: Grid, p: int)
    requires WellFormed(g)
    ensures IsWinner(g, p) <==> HasFour(g, p)
  {
    WinFromRowFinds(g, p, 0);
    if IsWinner(g, p) {
      var i, j :| 0 <= i < ROWS && 0 <= j < COLS && WinAt(g, p, i, j);
      assert FourFrom(g, p, i, j, Horizontal) || FourFrom(g, p, i, j, Vertical)
          || FourFrom(g, p, i, j, DiagonalDown) || FourFrom(g, p, i, j, DiagonalUp);
    }
    if HasFour(g, p) {
      var r, c, d :| FourFrom(g, p, r, c, d);
      assert InBounds(r, c);
      assert WinAt(g, p, r, c);
    }
  }

  /** evaluate in terms of lines of four: +WIN exactly when player 1 has one, -WIN exactly
      when player -1 has one and player 1 has none (player 1 is checked first, so a board both
      have won scores +WIN), and 0 when neither has one. */
  lemma EvaluateMeaning(g: Grid)
    requires WellFormed(g)
    ensures Evaluate(g) == WIN <==> HasFour(g, 1)
    ensures Evaluate(g) == -WIN <==> !HasFour(g, 1) && HasFour(g, -1)
    ensures Evaluate(g) == 0 <==> !HasFour(g, 1) && !HasFour(g, -1)
  {
    IsWinnerIffHasFour(g, 1);
    IsWinnerIffHasFour(g, -1);
  }

  // ---------------------------------------------------------------------------
  // Win detection on boards holding a single line

  /** Cell (i, j) is one of the four cells of the line from (r, c) in direction d. */
  predicate OnLine(r: int, c: int, d: Direction, i: int, j: int)
  {
    var (dr, dc) := Step(d);
    || (i, j) == (r, c)
    || (i, j) == (r + dr, c + dc)
    || (i, j) == (r + 2 * dr, c + 2 * dc)
    || (i, j) == (r + 3 * dr, c + 3 * dc)
  }

  /** The board holding p on the line from (r, c) in direction d and nothing else. */
  function LineBoard(r: int, c: int, d: Direction, p: int): (g: Grid)
    ensures WellFormed(g)
  {
    seq(ROWS, i => seq(COLS, j => if OnLine(r, c, d, i, j) then p else EMPTY))
  }

  /** A player with no token on the board has not won. */
  lemma NoTokenNoWin(g: Grid, q: int)
    requires WellFormed(g)
    requires forall i, j :: InBounds(i, j) ==> g[i][j] != q
    ensures !IsWinner(g, q)
  {
    IsWinnerIffHasFour(g, q);
  }

  /** The line board holds the line of four it was built from. */
  lemma LineBoardHoldsLine(r: int, c: int, d: Direction, p: int)
    requires InBounds(r, c)
    requires InBounds(r + 3 * Step(d).0, c + 3 * Step(d).1)
    ensures FourFrom(LineBoard(r, c, d, p), p, r, c, d)
  {
    var g := LineBoard(r, c, d, p);
    var (dr, dc) := Step(d);
    assert OnLine(r, c, d, r + dr, c + dc) && OnLine(r, c, d, r + 2 * dr, c + 2 * dc);
    assert Run(g, p, r + 3 * dr, c + 3 * dc, d, 1);
    assert Run(g, p, r + 2 * dr, c + 2 * dc, d, 2);
    assert Run(g, p, r + dr, c + dc, d, 3);
  }

  /** Every cell of the line board is p or empty. */
  lemma LineBoardHoldsOnlyP(r: int, c: int, d: Direction, p: int)
    ensures forall i, j :: InBounds(i, j) ==> LineBoard(r, c, d, p)[i][j] in {p, EMPTY}
  {
  }

  /** is_winner recognises every orientation: on a board holding only a line of four of
      player p (in any of the four directions), p has won and the opponent -p has not. */
  lemma DetectsEveryOrientation(r: int, c: int, d: Direction, p: int)
    requires p != EMPTY
    requires InBounds(r, c)
    requires InBounds(r + 3 * Step(d).0, c + 3 * Step(d).1)
    ensures IsWinner(LineBoard(r, c, d, p), p)
    ensures !IsWinner(LineBoard(r, c, d, p), -p)
  {
    var g := LineBoard(r, c, d, p);
    LineBoardHoldsLine(r, c, d, p);
    IsWinnerIffHasFour(g, p);
    LineBoardHoldsOnlyP(r, c, d, p);
    NoTokenNoWin(g, -p);
  }
}
