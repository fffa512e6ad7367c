# Connect-Four engine of puissance4.py in Dafny

This project models the game engine of `puissance4.py`, a Connect-Four game ("puissance 4")
between a human (player 1) and the computer (player -1). The model covers:

- the board: a 6 x 7 grid of integers, `0` for an empty cell, row 0 at the top;
- `create_board`;
- `is_valid_move` and `is_winner`, both completed (the source leaves them as stubs);
- `make_move`, the gravity drop;
- `evaluate`, the static score;
- `minimax`, the depth-limited minimax search with alpha-beta pruning that picks the
  computer's column.

The board is a value (`seq<seq<int>>`), so every operation returns a new board. The source
copies the board before each trial move (lines 63 and 78), so `minimax` never changes the
caller's board. In the model that holds by construction.

Modules, one per file:

- `Board` (board.dfy): the grid, `create_board`, the completed `is_valid_move`, `make_move`
  as a scan from the bottom row up, the gravity invariant and token counting.
- `Winner` (winner.dfy): the completed `is_winner`, proved equal to the reference
  definition `HasFour` ("four consecutive cells of one player horizontally, vertically or
  on either diagonal"), and `evaluate`.
- `Search` (search.dfy): `minimax` kept as the source writes it. The column loop with its
  `break` is the pair of recursive functions `MaxLoop` and `MinLoop`. Next to it is the
  reference: the same recursion without alpha, beta and the `break`. It is written as a
  scan (`ScanMax`, `ScanMin`) over the children's scores in column order.
- `Pruning` (pruning.dfy): alpha-beta against the reference.
  - At every node whose window satisfies `-INF <= alpha < beta <= INF`, the pruned score
    brackets the unpruned one (the fail-soft property).
  - Called from the root with `(-INF, +INF)`, as the main loop does at line 144, the two
    searches return the same score and the same move.
- `Choice` (choice.dfy): what the search returns.
  - A leaf is scored by `evaluate` and gets no move.
  - The move returned is always a valid column or none.
  - The move is the lowest valid column reaching the best score, because only a strict
    `>` or `<` replaces the running best.
  - It also states two consequences of the search as written (see below).
- `AsWritten` (stubs.dfy): the two stubs as written, each result taken as the truth value
  the callers' `if` sees (the fall-through `None` of both stubs becomes `false`), with an
  input on which each goes wrong (see Findings).

`np.inf` becomes the integer `INF = 1_000_000`, which lies strictly outside every score
`evaluate` can produce. Every score the search handles is one of `-INF, -1000, 0, 1000, INF`,
and these compare as the floats do.

Two quirks of `minimax` are kept exactly as written and stated as lemmas:

- Call the root's `player` argument P. The root, a maximising node, drops P (line 64) and
  passes `-P` to its minimising children (line 65). A minimising node called with `-P`
  drops `-(-P)`, that is P (line 79), and passes `-(-P)`, again P, to its maximising
  children (line 80). So every node of one search drops P's token
  (`Choice.SearchPlacesOneColour`).
- `evaluate` scores from player 1's side (lines 46-49) while the computer (-1) maximises
  (line 144). A column that wins for the computer scores -1000 in the computer's own
  search (`Choice.ComputerWinScoresAsLoss`).

Three further behaviours of the code are kept as written:

- At a node that is not a leaf (lines 55-56) but has no valid column, the loop of lines
  61-71 or 76-86 never updates its running best, so the code returns `(-inf, None)` or
  `(+inf, None)` rather than calling `evaluate`.
- `make_move` has no range check on the column (lines 30-38): a column outside the board
  raises `IndexError` or indexes from the end rather than returning False. See
  `Board.MakeMove` under Left out.
- `minimax` has no check on `depth` (line 55): a negative depth is not a leaf. See
  `Search.Minimax` under Left out.

## Model

| member | source | states |
|---|---|---|
| Board.CreateBoard | puissance4.py:20-21 | the new board has 6 rows of 7 cells and every cell is 0 |
| Board.CreateBoardIsEmpty | puissance4.py:20-21 | the new board satisfies gravity, holds no token, and every column is a valid move on it |
| Board.IsValidMove | puissance4.py:24-27 | completed is_valid_move: true exactly when the column is in [0, COLS) and its top cell is empty; true only for in-range columns |
| Board.ValidMoveInRange | puissance4.py:26-27 | a column below 0 or at or beyond COLS is never valid, whatever the board |
| Board.ValidMoveIffMakeMoveSucceeds | puissance4.py:24-38 | on a board with gravity, is_valid_move holds exactly when make_move succeeds on that column |
| Board.ScanUp | puissance4.py:32-33 | the bottom-up scan of a column returns an empty row at or above its start, every cell between it and the start being filled, or nothing when all those cells are filled |
| Board.LandingRow | puissance4.py:31-38 | the row a token lands in is the lowest empty cell of the column; there is none exactly when the column is full |
| Board.PlaceChangesOneCell | puissance4.py:34 | writing a token sets that one cell and leaves every other cell as it was |
| Board.MakeMoveEffect | puissance4.py:30-38 | make_move succeeds exactly when the column is not full; on success it writes the player into the lowest empty cell of the column and no other cell changes; on failure the board is unchanged |
| Board.MakeMove | puissance4.py:30-38 | make_move returns a 6 x 7 board; what it writes and when it succeeds is stated in Board.MakeMoveEffect |
| Board.FullColumnMoveIsIdempotent | puissance4.py:32-38 | a move into a full column fails, and repeating it on the result fails again with the same board |
| Board.MakeMovePreservesGravity | puissance4.py:32-35 | make_move keeps the gravity invariant (no empty cell below a filled one in any column) |
| Board.MakeMoveAddsOneToken | puissance4.py:32-35 | a successful move of a non-zero token raises the number of non-empty cells by exactly one |
| Board.EmptyCellIffValidMove | puissance4.py:138 | on a board with gravity, the draw test "some cell is 0" holds exactly when some column is a valid move |
| Winner.IsWinner | puissance4.py:41-42 | completed is_winner, a scan of every start cell in the four directions; its meaning is stated in Winner.IsWinnerIffHasFour |
| Winner.IsWinnerIffHasFour | puissance4.py:41-42 | completed is_winner holds exactly when the player holds four consecutive cells horizontally, vertically or on a diagonal |
| Winner.NoTokenNoWin | puissance4.py:41-42 | a player with no token on the board has not won |
| Winner.DetectsEveryOrientation | puissance4.py:41-42 | for each of the four orientations, a board holding one line of four of p has p winning and -p not |
| Winner.Evaluate | puissance4.py:45-51 | evaluate returns one of 1000, 0, -1000 |
| Winner.EvaluateMeaning | puissance4.py:45-51 | evaluate is 1000 exactly when player 1 has four in a line, -1000 exactly when player -1 has and player 1 has not, 0 exactly when neither has |
| Search.Minimax | puissance4.py:54-87 | the alpha-beta score is always one of -INF, -1000, 0, 1000, INF |
| Search.IsLeaf | puissance4.py:55 | the search stops at depth 0 or when either player has won; what it returns there is stated in Choice.LeafIsEvaluated |
| Search.Child | puissance4.py:63-64 | the trial board after the node's mover (player at a maximising node, -player at a minimising one, lines 64 and 79) drops a token keeps the 6 x 7 shape; the colour dropped is stated in Choice.SearchPlacesOneColour and the move's effect in Board.MakeMoveEffect |
| Search.ChildValue | puissance4.py:63-65 | the score of one recursive call is one of the five scores |
| Search.MaxLoop | puissance4.py:58-72 | the maximising loop returns a score among the five and never below its running best |
| Search.MinLoop | puissance4.py:73-87 | the minimising loop returns a score among the five and never above its running best |
| Search.FullMinimax | puissance4.py:54-87 | the unpruned search's score is one of the five scores |
| Search.FullChildValue | puissance4.py:78-80 | the unpruned score of one child is one of the five scores |
| Search.ChildScores | puissance4.py:61-65 | the children's unpruned scores, one per column: present exactly for the valid columns, each one of the five scores |
| Search.ScanMax | puissance4.py:66-68 | the strict-improvement scan returns its running best or a value found at the column it names |
| Search.ScanMin | puissance4.py:81-83 | the strict-improvement scan returns its running best or a value found at the column it names |
| Pruning.AlphaBetaBracket | puissance4.py:54-87 | with -INF <= alpha < beta <= INF, the pruned score v' and true score v satisfy: v' <= alpha implies v <= v'; alpha < v' < beta implies v == v'; v' >= beta implies v >= v' |
| Pruning.ChildBracket | puissance4.py:63-65 | the bracket holds for the score of each child |
| Pruning.MaxLoopBracket | puissance4.py:58-72 | the maximising loop, with alpha raised to the running best and the break at beta <= alpha, keeps the bracket against the unpruned scan |
| Pruning.MinLoopBracket | puissance4.py:73-87 | the minimising loop, with beta lowered to the running best and the break at beta <= alpha, keeps the bracket against the unpruned scan |
| Pruning.MaxStep | puissance4.py:66-71 | one column of the maximising loop keeps the bracket, keeps alpha equal to max(alpha0, best), and a break means both bests are at least beta |
| Pruning.MinStep | puissance4.py:81-86 | one column of the minimising loop keeps the bracket, keeps beta equal to min(beta0, best), and a break means both bests are at most alpha |
| Pruning.ScanMaxBound | puissance4.py:66-68 | the maximising scan returns at least its running best and at least every present child score |
| Pruning.ScanMinBound | puissance4.py:81-83 | the minimising scan returns at most its running best and at most every present child score |
| Pruning.ScanMaxFirstBest | puissance4.py:66-68 | the maximising scan keeps its best, or moves to a strictly larger score at the column it names, and every present score before that column is strictly smaller |
| Pruning.ScanMinFirstBest | puissance4.py:81-83 | the minimising scan keeps its best, or moves to a strictly smaller score at the column it names, and every present score before that column is strictly larger |
| Pruning.ScanMaxKeeps | puissance4.py:66-68 | a maximising scan whose running best no child exceeds returns that best unchanged |
| Pruning.ScanMinKeeps | puissance4.py:81-83 | a minimising scan whose running best no child undercuts returns that best unchanged |
| Pruning.RootMaxLoopAgrees | puissance4.py:58-72 | with beta = +INF and alpha tracking the running best, the pruned maximising loop returns exactly what the unpruned scan returns |
| Pruning.RootMinLoopAgrees | puissance4.py:73-87 | with alpha = -INF and beta tracking the running best, the pruned minimising loop returns exactly what the unpruned scan returns |
| Pruning.AlphaBetaRootAgrees | puissance4.py:144 | called with (-INF, +INF), minimax returns the same score and the same move as the search without pruning |
| Choice.LeafIsEvaluated | puissance4.py:55-56 | at depth 0, or when either player has four in a line, both searches return (evaluate(board), None) |
| Choice.MaxLoopMoveIsValid | puissance4.py:61-68 | the maximising loop names only columns that is_valid_move accepted |
| Choice.MinLoopMoveIsValid | puissance4.py:76-83 | the minimising loop names only columns that is_valid_move accepted |
| Choice.MinimaxMoveIsValid | puissance4.py:54-87 | at every node and under any window, the move returned is None or a valid column in [0, COLS) |
| Choice.MaxNodeChoosesFirstBest | puissance4.py:58-72 | at an inner maximising node the unpruned result is the largest child score; the move is the lowest valid column reaching it; there is no move exactly when every valid column scores -INF, and the score is then -INF |
| Choice.MinNodeChoosesFirstBest | puissance4.py:73-87 | at an inner minimising node the unpruned result is the smallest child score; the move is the lowest valid column reaching it; there is no move exactly when every valid column scores +INF, and the score is then +INF |
| Choice.AlphaBetaRootChoosesFirstBest | puissance4.py:144 | the computer's call minimax(board, depth, -inf, inf, True, player) returns the largest child score and, as its move, the lowest valid column reaching it |
| Choice.SearchPlacesOneColour | puissance4.py:79-80 | a minimising child called with -player drops the same token as its maximising parent, so one search drops only the root player's token |
| Choice.WinningColumnForPlayerOne | puissance4.py:58-72 | if a valid column gives player 1 four in a line, a maximising search for player 1 scores at least 1000, with or without pruning |
| Choice.ComputerWinScoresAsLoss | puissance4.py:46-49 | a column giving the computer (-1) four in a line, and player 1 none, scores -1000 in the computer's own maximising search |
| AsWritten.IsValidMoveAsWritten | puissance4.py:24-27 | the stub as written is falsy for every column |
| AsWritten.IsValidMoveAsWrittenRejectsPlayableColumn | puissance4.py:24-38 | on the empty board, make_move succeeds in column 0, while the stub rejects that column and the completed check accepts it |
| AsWritten.IsWinnerAsWritten | puissance4.py:41-42 | the stub as written is falsy for every board and player |
| AsWritten.EvaluateAsWritten | puissance4.py:45-51 | on top of the stub, evaluate scores every board 0 |
| AsWritten.IsWinnerAsWrittenMissesBottomRow | puissance4.py:41-51 | with four tokens of player 1 along the bottom row, the completed is_winner and evaluate see the win (1000), while the stub reports no winner and evaluate gives 0 |

## Left out

- The pygame layer is not modelled: `init_pygame`, `draw_board` and the event loop of `main`,
  with its mouse handling, `print` and `sys.exit` (lines 89-156). It is presentation and I/O.
- The colour, pixel and window constants (lines 8-17) and the pixel-to-column mapping
  (line 126) are not modelled. They are presentation.
- numpy is not modelled. `np.zeros` and `.copy()` become immutable sequences.
- Floating point is not modelled: `np.inf` becomes the integer sentinel `INF`.
- The main loop's draw test (line 138) is not modelled as control flow. It appears only in
  `Board.EmptyCellIffValidMove`.
- The computer's turn at line 145 is not modelled. It calls `make_move` with the move the
  search returned, which can be None.
- Board.MakeMove: requires a column in [0, COLS). The source raises `IndexError` for col >= COLS
  or col < -COLS; for -COLS <= col < 0 it writes into column col + COLS (numpy's negative
  index at line 33). Lines 62-64, 77-79 and 128-129 check the column with `is_valid_move` first.
  Line 145 passes the move `minimax` returned, which is either a checked column or None
  (`Choice.MinimaxMoveIsValid`).
- Search.Minimax: depth is a natural number. The source is only called with depth 4. A
  negative depth is not a leaf there, and the recursion stops only when the board fills up
  or someone wins.
- Choice.AlphaBetaRootChoosesFirstBest: is stated for the root call with (-INF, +INF), the
  one call the program makes. Below the root, pruning may return a different move than the
  unpruned search. There `Pruning.AlphaBetaBracket` relates only the scores.
- Board cells are not restricted to 0, 1 and -1, because the source does not restrict them.
  Lemmas that need a real token require `player != 0`.

## Findings

| source | as written | input that shows it | evidently intended | confidence | as-written member | corrected member |
|---|---|---|---|---|---|---|
| puissance4.py:24-27 | `is_valid_move` returns False off the board and falls off its end (None) on the board, so no column is ever valid and the human's click at line 128 never plays | the empty board, column 0: `make_move` would succeed, yet the check is falsy | the column is on the board and its top cell is empty | high, not executed | AsWritten.IsValidMoveAsWrittenRejectsPlayableColumn | Board.ValidMoveIffMakeMoveSucceeds |
| puissance4.py:41-42 | `is_winner` is `pass` (None), so no win is ever detected and `evaluate` scores every board 0 | a board with player 1 in the four leftmost cells of the bottom row | the player holds four consecutive cells horizontally, vertically or on a diagonal | high, not executed | AsWritten.IsWinnerAsWrittenMissesBottomRow | Winner.IsWinnerIffHasFour |
