/** The Connect-Four board of puissance4.py: a ROWS x COLS grid of integers where 0 is an
    empty cell and any other value is a token (1 for the human, -1 for the computer).
    Row 0 is the top row and row ROWS - 1 the bottom one, as in the source, so tokens
    fall towards larger row indices. The grid is a value: every operation returns a new one. */
module Board {

  const ROWS: int := 6
  const COLS: int := 7

  /** The content of an empty cell. */
  const EMPTY: int := 0

  datatype Option<T> = None | Some(value: T)

  type Grid = seq<seq<int>>

  /** The shape every board of the game has: ROWS rows of COLS cells each. The six rows
      are listed one by one rather than quantified over, so the list below must change
      with ROWS (WellFormedRowsListed checks it covers every row). */
  predicate WellFormed(g: Grid) {
    && |g| == ROWS  // ROWS == 6: rows 0 to 5 are listed below
    && |g[0]| == COLS && |g[1]| == COLS && |g[2]| == COLS
    && |g[3]| == COLS && |g[4]| == COLS && |g[5]| == COLS
  }

  /** Every row of a well-formed board has COLS cells: the explicit list of WellFormed
      covers all ROWS rows. */
  lemma WellFormedRowsListed(g: Grid)
    requires WellFormed(g)
    ensures forall r :: 0 <= r < ROWS ==> |g[r]| == COLS
  {
  }

  predicate InBounds(r: int, c: int) {
    0 <= r < ROWS && 0 <= c < COLS
  }

  /** Gravity: within a column, every cell above an empty cell is empty too. */
  predicate Gravity(g: Grid)
    requires WellFormed(g)
  {
    forall r1, r2, c :: 0 <= r1 < r2 < ROWS && 0 <= c < COLS && g[r2][c] == EMPTY ==> g[r1][c] == EMPTY
  }

  /** create_board: a fresh board with every cell empty. */
  function CreateBoard(): (g: Grid)
    ensures WellFormed(g)
    ensures forall r, c :: InBounds(r, c) ==> g[r][c] == EMPTY
  {
    seq(ROWS, _ => seq(COLS, _ => EMPTY))
  }

  /** is_valid_move, completed: the column lies on the board and its top cell is empty.
      The range test is the one the source performs; the top-cell test is the condition
      under which make_move can place a token. */
  function IsValidMove(g: Grid, col: int): (ok: bool)
    requires WellFormed(g)
    ensures ok ==> 0 <= col < COLS
    ensures ok <==> InBounds(0, col) && g[0][col] == EMPTY
  {
    if col < 0 || col >= |g[0]| then false
    else g[0][col] == EMPTY
  }

  /** Row r is the lowest empty cell of column col: empty, and every cell below it is filled. */
  predicate LowestEmpty(g: Grid, col: int, r: int)
    requires WellFormed(g)
  {
    && InBounds(r, col)
    && g[r][col] == EMPTY
    && forall k :: r < k < ROWS ==> g[k][col] != EMPTY
  }

  /** Column col holds no empty cell. */
  predicate ColumnFull(g: Grid, col: int)
    requires WellFormed(g)
    requires 0 <= col < COLS
  {
    forall k :: 0 <= k < ROWS ==> g[k][col] != EMPTY
  }

  /** The scan of make_move: rows row, row - 1, ..., 0 of column col, bottom to top,
      stopping at the first empty cell. */
  function ScanUp(g: Grid, col: int, row: int): (r: Option<nat>)
    requires WellFormed(g)
    requires 0 <= col < COLS
    requires -1 <= row < ROWS
    ensures r.Some? ==> r.value <= row && g[r.value][col] == EMPTY
    ensures r.Some? ==> forall k :: r.value < k <= row ==> g[k][col] != EMPTY
    ensures r.None? ==> forall k :: 0 <= k <= row ==> g[k][col] != EMPTY
    decreases row + 1
  {
    if row < 0 then None
    else if g[row][col] == EMPTY then Some(row)
    else ScanUp(g, col, row - 1)
  }

  /** The row a token dropped into column col lands in, or None when the column is full. */
  function LandingRow(g: Grid, col: int): (r: Option<nat>)
    requires WellFormed(g)
    requires 0 <= col < COLS
    ensures r.Some? ==> LowestEmpty(g, col, r.value)
    ensures r.None? <==> ColumnFull(g, col)
  {
    ScanUp(g, col, ROWS - 1)
  }

  /** The board g with cell (r, c) set to v and every other cell as it was. */
  function Place(g: Grid, r: int, c: int, v: int): (h: Grid)
    requires WellFormed(g)
    requires InBounds(r, c)
    ensures WellFormed(h)
  {
    g[r := g[r][c := v]]
  }

  /** Place writes v into cell (r, c) and leaves every other cell as it was. */
  lemma PlaceChangesOneCell(g: Grid, r: int, c: int, v: int)
    requires WellFormed(g)
    requires InBounds(r, c)
    ensures Place(g, r, c, v)[r][c] == v
    ensures forall i, j :: InBounds(i, j) && (i, j) != (r, c) ==> Place(g, r, c, v)[i][j] == g[i][j]
  {
  }

  /** What make_move reports and the board it leaves behind. */
  datatype MoveResult = MoveResult(success: bool, board: Grid)

  /** make_move: drop player's token into column col. It lands in the lowest empty cell;
      when the column is full the move fails and the board is left as it was. */
  function MakeMove(g: Grid, col: int, player: int): (m: MoveResult)
    requires WellFormed(g)
    requires 0 <= col < COLS
    ensures WellFormed(m.board)
  {
    match LandingRow(g, col)
    case Some(r) => MoveResult(true, Place(g, r, col, player))
    case None => MoveResult(false, g)
  }

  /** make_move succeeds exactly when the column has an empty cell. It then writes player into
      the lowest empty cell of the column and changes no other cell; otherwise it leaves the
      board as it was. */
  lemma MakeMoveEffect(g: Grid, col: int, player: int)
    requires WellFormed(g)
    requires 0 <= col < COLS
    ensures var m := MakeMove(g, col, player);
      && (m.success <==> !ColumnFull(g, col))
      && (!m.success ==> m.board == g)
      && (m.success ==> exists r :: && LowestEmpty(g, col, r)
                                    && m.board[r][col] == player
                                    && forall i, j :: InBounds(i, j) && (i, j) != (r, col) ==> m.board[i][j] == g[i][j])
  {
    var m := MakeMove(g, col, player);
    if m.success {
      var r := LandingRow(g, col).value;
      PlaceChangesOneCell(g, r, col, player);
    }
  }

  /** The number of non-empty cells in a row. */
  function CountRow(row: seq<int>): nat
  {
    if |row| == 0 then 0
    else (if row[0] != EMPTY then 1 else 0) + CountRow(row[1..])
  }

  /** The number of tokens on the board. */
  function CountFilled(g: Grid): nat
  {
    if |g| == 0 then 0
    else CountRow(g[0]) + CountFilled(g[1..])
  }

  /** The draw test of the main loop: some cell of the board is still empty. */
  predicate HasEmptyCell(g: Grid)
    requires WellFormed(g)
  {
    exists r, c :: 0 <= r < ROWS && 0 <= c < COLS && g[r][c] == EMPTY
  }

  // ---------------------------------------------------------------------------
  // Properties of the board operations

  lemma CreateBoardIsEmpty()
    ensures Gravity(CreateBoard())
    ensures CountFilled(CreateBoard()) == 0
    ensures forall col :: 0 <= col < COLS ==> IsValidMove(CreateBoard(), col)
  {
    var g := CreateBoard();
    forall i | 0 <= i <= ROWS
      ensures CountFilled(g[i..]) == 0
    {
      CountFilledEmptySuffix(g, i);
    }
    assert g[0..] == g;
  }

  lemma {:induction false} CountFilledEmptySuffix(g: Grid, i: int)
    requires g == CreateBoard()
    requires 0 <= i <= ROWS
    ensures CountFilled(g[i..]) == 0
    decreases ROWS - i
  {
    if i < ROWS {
      CountFilledEmptySuffix(g, i + 1);
      assert g[i..][1..] == g[i + 1..];
      CountRowEmpty(g[i], 0);
      assert g[i][0..] == g[i];
    }
  }

  lemma {:induction false} CountRowEmpty(row: seq<int>, j: int)
    requires 0 <= j <= |row|
    requires forall k :: 0 <= k < |row| ==> row[k] == EMPTY
    ensures CountRow(row[j..]) == 0
    decreases |row| - j
  {
    if j < |row| {
      CountRowEmpty(row, j + 1);
      assert row[j..][1..] == row[j + 1..];
    }
  }

  /** is_valid_move never holds for a column off the board, whatever the board holds: the
      standalone form of IsValidMove's in-range ensures, for callers that reason about a
      column already known to be off the board. */
  lemma ValidMoveInRange(g: Grid, col: int)
    requires WellFormed(g)
    requires col < 0 || col >= COLS
    ensures !IsValidMove(g, col)
  {
  }

  /** On a board that respects gravity, the completed is_valid_move is exactly the
      condition under which make_move succeeds. */
  lemma {:induction false} ValidMoveIffMakeMoveSucceeds(g: Grid, col: int, player: int)
    requires WellFormed(g)
    requires Gravity(g)
    requires 0 <= col < COLS
    ensures IsValidMove(g, col) <==> MakeMove(g, col, player).success
  {
    if !ColumnFull(g, col) {
      var k :| 0 <= k < ROWS && g[k][col] == EMPTY;
      if k > 0 {
        assert g[0][col] == EMPTY;
      }
    }
  }

  /** A move into a full column fails and changes nothing, so repeating it fails again. */
  lemma FullColumnMoveIsIdempotent(g: Grid, col: int, player: int)
    requires WellFormed(g)
    requires 0 <= col < COLS
    requires ColumnFull(g, col)
    ensures !MakeMove(g, col, player).success
    ensures MakeMove(MakeMove(g, col, player).board, col, player) == MakeMove(g, col, player)
  {
  }

  /** make_move keeps the gravity invariant. */
  lemma {:induction false} MakeMovePreservesGravity(g: Grid, col: int, player: int)
    requires WellFormed(g)
    requires Gravity(g)
    requires 0 <= col < COLS
    ensures Gravity(MakeMove(g, col, player).board)
  {
    var m := MakeMove(g, col, player);
    if m.success {
      var r := LandingRow(g, col).value;
      var h := m.board;
      assert h == Place(g, r, col, player);
      PlaceChangesOneCell(g, r, col, player);
      assert forall k :: r < k < ROWS ==> h[k][col] != EMPTY;
      forall r1, r2, c | 0 <= r1 < r2 < ROWS && 0 <= c < COLS && h[r2][c] == EMPTY
        ensures h[r1][c] == EMPTY
      {
        if c != col || (r1 != r && r2 != r) {
          assert g[r2][c] == EMPTY;
          assert h[r1][c] == g[r1][c];
        } else if r2 == r {
          // the token written is EMPTY, so the landing cell stays empty
          assert g[r2][c] == EMPTY;
          assert h[r1][c] == g[r1][c];
        }
      }
    }
  }

  lemma {:induction false} CountRowUpdate(row: seq<int>, j: int, v: int)
    requires 0 <= j < |row|
    ensures CountRow(row[j := v]) + (if row[j] != EMPTY then 1 else 0)
         == CountRow(row) + (if v != EMPTY then 1 else 0)
    decreases j
  {
    if j > 0 {
      CountRowUpdate(row[1..], j - 1, v);
      assert row[j := v][1..] == row[1..][j - 1 := v];
    } else {
      assert row[j := v][1..] == row[1..];
    }
  }

  lemma {:induction false} CountFilledUpdate(g: Grid, i: int, row: seq<int>)
    requires 0 <= i < |g|
    ensures CountFilled(g[i := row]) + CountRow(g[i]) == CountFilled(g) + CountRow(row)
    decreases i
  {
    if i > 0 {
      CountFilledUpdate(g[1..], i - 1, row);
      assert g[i := row][1..] == g[1..][i - 1 := row];
    } else {
      assert g[i := row][1..] == g[1..];
    }
  }

  /** A successful move of a real token adds exactly one token to the board. */
  lemma MakeMoveAddsOneToken(g: Grid, col: int, player: int)
    requires WellFormed(g)
    requires 0 <= col < COLS
    requires player != EMPTY
    requires MakeMove(g, col, player).success
    ensures CountFilled(MakeMove(g, col, player).board) == CountFilled(g) + 1
  {
    var r := LandingRow(g, col).value;
    CountRowUpdate(g[r], col, player);
    CountFilledUpdate(g, r, g[r][col := player]);
  }

  /** On a board that respects gravity, the main loop's draw test (some cell empty) holds
      exactly when some column is still a valid move. */
  lemma {:induction false} EmptyCellIffValidMove(g: Grid)
    requires WellFormed(g)
    requires Gravity(g)
    ensures HasEmptyCell(g) <==> exists col :: 0 <= col < COLS && IsValidMove(g, col)
  {
    if HasEmptyCell(g) {
      var r, c :| 0 <= r < ROWS && 0 <= c < COLS && g[r][c] == EMPTY;
      if r > 0 {
        assert g[0][c] == EMPTY;
      }
      assert IsValidMove(g, c);
    }
    if exists col :: 0 <= col < COLS && IsValidMove(g, col) {
      var col :| 0 <= col < COLS && IsValidMove(g, col);
      assert InBounds(0, col) && g[0][col] == EMPTY;
    }
  }
}
