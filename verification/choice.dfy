/** What the search of puissance4.py returns: the leaf score, the column it picks, and the
    consequences of the search as written (one colour per search, scores from player 1's
    side). */
module Choice {
  import opened Board
  import opened Winner
  import opened Search
  import opened Pruning

  /** A leaf (no depth left, or a line of four for either player) is scored by evaluate and
      gets no move, whatever the window and the side to move. */
  lemma LeafIsEvaluated(g: Grid, depth: nat, alpha: int, beta: int, maximizing: bool, player: int)
    requires WellFormed(g)
    requires depth == 0 || HasFour(g, 1) || HasFour(g, -1)
    ensures Minimax(g, depth, alpha, beta, maximizing, player) == SearchResult(Evaluate(g), None)
    ensures FullMinimax(g, depth, maximizing, player) == SearchResult(Evaluate(g), None)
  {
    IsWinnerIffHasFour(g, 1);
    IsWinnerIffHasFour(g, -1);
  }

  /** The maximising loop only ever names a column it has checked with is_valid_move. */
  lemma {:induction false} MaxLoopMoveIsValid(g: Grid, depth: nat, alpha: int, beta: int, player: int, col: nat, best: SearchResult)
    requires WellFormed(g)
    requires depth > 0
    requires col <= COLS
    requires IsScore(best.score)
    requires best.move.Some? ==> IsValidMove(g, best.move.value)
    ensures var r := MaxLoop(g, depth, alpha, beta, player, col, best);
      r.move.Some? ==> IsValidMove(g, r.move.value)
    decreases COLS - col
  {
    if col < COLS {
      if !IsValidMove(g, col) {
        MaxLoopMoveIsValid(g, depth, alpha, beta, player, col + 1, best);
      } else {
        var e := ChildValue(g, depth, alpha, beta, true, player, col);
        var best' := if e > best.score then SearchResult(e, Some(col)) else best;
        if Max(alpha, e) < beta {
          MaxLoopMoveIsValid(g, depth, Max(alpha, e), beta, player, col + 1, best');
        }
      }
    }
  }

  /** The minimising loop only ever names a column it has checked with is_valid_move. */
  lemma {:induction false} MinLoopMoveIsValid(g: Grid, depth: nat, alpha: int, beta: int, player: int, col: nat, best: SearchResult)
    requires WellFormed(g)
    requires depth > 0
    requires col <= COLS
    requires IsScore(best.score)
    requires best.move.Some? ==> IsValidMove(g, best.move.value)
    ensures var r := MinLoop(g, depth, alpha, beta, player, col, best);
      r.move.Some? ==> IsValidMove(g, r.move.value)
    decreases COLS - col
  {
    if col < COLS {
      if !IsValidMove(g, col) {
        MinLoopMoveIsValid(g, depth, alpha, beta, player, col + 1, best);
      } else {
        var e := ChildValue(g, depth, alpha, beta, false, player, col);
        var best' := if e < best.score then SearchResult(e, Some(col)) else best;
        if alpha < Min(beta, e) {
          MinLoopMoveIsValid(g, depth, alpha, Min(beta, e), player, col + 1, best');
        }
      }
    }
  }

  /** At every node, under any window, the move minimax returns is None or a column that
      is_valid_move accepts, so in particular one in [0, COLS). */
  lemma MinimaxMoveIsValid(g: Grid, depth: nat, alpha: int, beta: int, maximizing: bool, player: int)
    requires WellFormed(g)
    ensures var r := Minimax(g, depth, alpha, beta, maximizing, player);
      r.move.Some? ==> IsValidMove(g, r.move.value) && 0 <= r.move.value < COLS
  {
    if !IsLeaf(g, depth) {
      if maximizing {
        MaxLoopMoveIsValid(g, depth, alpha, beta, player, 0, SearchResult(-INF, None));
      } else {
        MinLoopMoveIsValid(g, depth, alpha, beta, player, 0, SearchResult(INF, None));
      }
    }
  }

  // ---------------------------------------------------------------------------
  // Which column the search picks

  /** At an inner maximising node the unpruned search returns the largest child score, and
      as its move the lowest valid column reaching it. It returns no move exactly when every
      valid column scores -INF, which includes having no valid column, and the score is then
      -INF. */
  lemma MaxNodeChoosesFirstBest(g: Grid, depth: nat, player: int)
    requires WellFormed(g)
    requires !IsLeaf(g, depth)
    ensures var r := FullMinimax(g, depth, true, player);
      && (forall c :: 0 <= c < COLS && IsValidMove(g, c) ==> FullChildValue(g, depth, true, player, c) <= r.score)
      && (r.move.None? <==> forall c :: 0 <= c < COLS && IsValidMove(g, c) ==> FullChildValue(g, depth, true, player, c) == -INF)
      && (r.move.None? ==> r.score == -INF)
      && (r.move.Some? ==>
            && IsValidMove(g, r.move.value)
            && FullChildValue(g, depth, true, player, r.move.value) == r.score
            && forall c :: 0 <= c < r.move.value && IsValidMove(g, c) ==> FullChildValue(g, depth, true, player, c) < r.score)
  {
    var vals := ChildScores(g, depth, true, player);
    var start := SearchResult(-INF, None);
    ScanMaxBound(vals, 0, start);
    ScanMaxFirstBest(vals, 0, start);
    forall c | 0 <= c < COLS && IsValidMove(g, c)
      ensures vals[c] == Some(FullChildValue(g, depth, true, player, c))
    {
    }
  }

  /** At an inner minimising node the unpruned search returns the smallest child score, and
      as its move the lowest valid column reaching it. It returns no move exactly when every
      valid column scores +INF, and the score is then +INF. */
  lemma MinNodeChoosesFirstBest(g: Grid, depth: nat, player: int)
    requires WellFormed(g)
    requires !IsLeaf(g, depth)
    ensures var r := FullMinimax(g, depth, false, player);
      && (forall c :: 0 <= c < COLS && IsValidMove(g, c) ==> FullChildValue(g, depth, false, player, c) >= r.score)
      && (r.move.None? <==> forall c :: 0 <= c < COLS && IsValidMove(g, c) ==> FullChildValue(g, depth, false, player, c) == INF)
      && (r.move.None? ==> r.score == INF)
      && (r.move.Some? ==>
            && IsValidMove(g, r.move.value)
            && FullChildValue(g, depth, false, player, r.move.value) == r.score
            && forall c :: 0 <= c < r.move.value && IsValidMove(g, c) ==> FullChildValue(g, depth, false, player, c) > r.score)
  {
    var vals := ChildScores(g, depth, false, player);
    var start := SearchResult(INF, None);
    ScanMinBound(vals, 0, start);
    ScanMinFirstBest(vals, 0, start);
    forall c | 0 <= c < COLS && IsValidMove(g, c)
      ensures vals[c] == Some(FullChildValue(g, depth, false, player, c))
    {
    }
  }

  /** The computer's call: a maximising alpha-beta search from the root with (-INF, +INF)
      returns the largest child score, and as its move the lowest valid column reaching it. */
  lemma AlphaBetaRootChoosesFirstBest(g: Grid, depth: nat, player: int)
    requires WellFormed(g)
    requires !IsLeaf(g, depth)
    ensures var r := Minimax(g, depth, -INF, INF, true, player);
      && (forall c :: 0 <= c < COLS && IsValidMove(g, c) ==> FullChildValue(g, depth, true, player, c) <= r.score)
      && (r.move.None? ==> r.score == -INF)
      && (r.move.Some? ==>
            && IsValidMove(g, r.move.value)
            && FullChildValue(g, depth, true, player, r.move.value) == r.score
            && forall c :: 0 <= c < r.move.value && IsValidMove(g, c) ==> FullChildValue(g, depth, true, player, c) < r.score)
  {
    AlphaBetaRootAgrees(g, depth, true, player);
    MaxNodeChoosesFirstBest(g, depth, player);
  }

  // ---------------------------------------------------------------------------
  // Consequences of the search as written

  /** Both branches drop the same colour: a maximising node places `player` and its child,
      called with `-player` and minimising, places `-(-player)`. So every child board of
      every node of one search receives the root player's token. */
  lemma SearchPlacesOneColour(g: Grid, col: int, maximizing: bool, player: int)
    requires WellFormed(g)
    requires 0 <= col < COLS
    ensures Child(g, col, !maximizing, -player) == Child(g, col, maximizing, player)
  {
  }

  /** A column that completes a line of four for player 1 gives a maximising search for
      player 1 a score of at least WIN, with and without pruning. */
  lemma WinningColumnForPlayerOne(g: Grid, depth: nat, col: int)
    requires WellFormed(g)
    requires !IsLeaf(g, depth)
    requires IsValidMove(g, col)
    requires HasFour(Child(g, col, true, 1), 1)
    ensures FullMinimax(g, depth, true, 1).score >= WIN
    ensures Minimax(g, depth, -INF, INF, true, 1).score >= WIN
  {
    var h := Child(g, col, true, 1);
    IsWinnerIffHasFour(h, 1);
    assert FullChildValue(g, depth, true, 1, col) == WIN;
    MaxNodeChoosesFirstBest(g, depth, 1);
    AlphaBetaRootAgrees(g, depth, true, 1);
  }

  /** evaluate scores from player 1's side while the computer (-1) maximises: a column that
      gives the computer a line of four, and player 1 none, scores -WIN in the computer's own
      search, the worst finite score for the maximiser. */
  lemma ComputerWinScoresAsLoss(g: Grid, depth: nat, col: int)
    requires WellFormed(g)
    requires depth > 0
    requires IsValidMove(g, col)
    requires HasFour(Child(g, col, true, -1), -1)
    requires !HasFour(Child(g, col, true, -1), 1)
    ensures FullChildValue(g, depth, true, -1, col) == -WIN
    ensures ChildValue(g, depth, -INF, INF, true, -1, col) == -WIN
  {
    var h := Child(g, col, true, -1);
    IsWinnerIffHasFour(h, 1);
    IsWinnerIffHasFour(h, -1);
  }
}
