/** What the alpha-beta search of puissance4.py computes, stated against the unpruned
    recursion of module Search:
    - at every node called with -INF <= alpha < beta <= INF, the pruned score brackets the
      unpruned one (the fail-soft property of alpha-beta);
    - called from the root with (-INF, +INF), as the main loop does, the pruned search returns
      exactly the unpruned score AND move;
    - the unpruned search returns the lowest-index column that reaches the best score.
    The loop facts are proved once on the board-free scans ScanMax and ScanMin and then read
    back on the child scores of a node. */
module Pruning {
  import opened Board
  import opened Winner
  import opened Search

  /** The fail-soft relation between a pruned score r and the true score v under a window
      (alpha, beta): a score at or below alpha is an upper bound of v, a score at or above beta
      a lower bound, and a score inside the window is exact. */
  predicate Bracket(r: int, v: int, alpha: int, beta: int)
  {
    && (r <= alpha ==> v <= r)
    && (alpha < r < beta ==> v == r)
    && (beta <= r ==> r <= v)
  }

  lemma {:induction false} AlphaBetaBracket(g: Grid, depth: nat, alpha: int, beta: int, maximizing: bool, player: int)
    requires WellFormed(g)
    requires -INF <= alpha < beta <= INF
    ensures Bracket(Minimax(g, depth, alpha, beta, maximizing, player).score,
                    FullMinimax(g, depth, maximizing, player).score, alpha, beta)
    decreases depth, COLS + 1
  {
    if !IsLeaf(g, depth) {
      var start := SearchResult(-INF, None);
      if maximizing {
        MaxLoopBracket(g, depth, alpha, alpha, beta, player, 0, start, start);
      } else {
        start := SearchResult(INF, None);
        MinLoopBracket(g, depth, alpha, beta, beta, player, 0, start, start);
      }
    }
  }

  /** The bracket for one child, from the bracket one ply down. */
  lemma {:induction false} ChildBracket(g: Grid, depth: nat, alpha: int, beta: int, maximizing: bool, player: int, col: int)
    requires WellFormed(g)
    requires depth > 0
    requires 0 <= col < COLS
    requires -INF <= alpha < beta <= INF
    ensures Bracket(ChildValue(g, depth, alpha, beta, maximizing, player, col),
                    FullChildValue(g, depth, maximizing, player, col), alpha, beta)
    decreases depth, 0
  {
    var h := Child(g, col, maximizing, player);
    AlphaBetaBracket(h, depth - 1, alpha, beta, !maximizing, -player);
  }

  /** The maximising loop keeps the bracket between its running best and the unpruned scan;
      alpha0 is the alpha the node was called with. */
  lemma {:induction false} MaxLoopBracket(g: Grid, depth: nat, alpha0: int, alpha: int, beta: int, player: int,
                                          col: nat, best: SearchResult, full: SearchResult)
    requires WellFormed(g)
    requires depth > 0
    requires col <= COLS
    requires IsScore(best.score)
    requires -INF <= alpha0 < beta <= INF
    requires alpha == Max(alpha0, best.score)
    requires alpha < beta
    requires Bracket(best.score, full.score, alpha0, beta)
    ensures Bracket(MaxLoop(g, depth, alpha, beta, player, col, best).score,
                    ScanMax(ChildScores(g, depth, true, player), col, full).score, alpha0, beta)
    decreases depth, COLS - col
  {
    var vals := ChildScores(g, depth, true, player);
    if col < COLS {
      if !IsValidMove(g, col) {
        MaxLoopBracket(g, depth, alpha0, alpha, beta, player, col + 1, best, full);
      } else {
        ChildBracket(g, depth, alpha, beta, true, player, col);
        var e := ChildValue(g, depth, alpha, beta, true, player, col);
        var f := FullChildValue(g, depth, true, player, col);
        var best' := if e > best.score then SearchResult(e, Some(col)) else best;
        var full' := if f > full.score then SearchResult(f, Some(col)) else full;
        var alpha' := Max(alpha, e);
        MaxStep(alpha0, alpha, beta, best.score, full.score, e, f);
        if alpha' < beta {
          MaxLoopBracket(g, depth, alpha0, alpha', beta, player, col + 1, best', full');
        } else {
          ScanMaxBound(vals, col + 1, full');
        }
      }
    }
  }

  /** The minimising loop keeps the bracket between its running best and the unpruned scan;
      beta0 is the beta the node was called with. */
  lemma {:induction false} MinLoopBracket(g: Grid, depth: nat, alpha: int, beta0: int, beta: int, player: int,
                                          col: nat, best: SearchResult, full: SearchResult)
    requires WellFormed(g)
    requires depth > 0
    requires col <= COLS
    requires IsScore(best.score)
    requires -INF <= alpha < beta0 <= INF
    requires beta == Min(beta0, best.score)
    requires alpha < beta
    requires Bracket(best.score, full.score, alpha, beta0)
    ensures Bracket(MinLoop(g, depth, alpha, beta, player, col, best).score,
                    ScanMin(ChildScores(g, depth, false, player), col, full).score, alpha, beta0)
    decreases depth, COLS - col
  {
    var vals := ChildScores(g, depth, false, player);
    if col < COLS {
      if !IsValidMove(g, col) {
        MinLoopBracket(g, depth, alpha, beta0, beta, player, col + 1, best, full);
      } else {
        ChildBracket(g, depth, alpha, beta, false, player, col);
        var e := ChildValue(g, depth, alpha, beta, false, player, col);
        var f := FullChildValue(g, depth, false, player, col);
        var best' := if e < best.score then SearchResult(e, Some(col)) else best;
        var full' := if f < full.score then SearchResult(f, Some(col)) else full;
        var beta' := Min(beta, e);
        MinStep(alpha, beta0, beta, best.score, full.score, e, f);
        if alpha < beta' {
          MinLoopBracket(g, depth, alpha, beta0, beta', player, col + 1, best', full');
        } else {
          ScanMinBound(vals, col + 1, full');
        }
      }
    }
  }

  /** One column of the maximising loop keeps the bracket: m and M are the pruned and
      unpruned running bests, e and f the pruned and unpruned scores of the next child. */
  lemma MaxStep(alpha0: int, alpha: int, beta: int, m: int, M: int, e: int, f: int)
    requires alpha0 < beta
    requires alpha == Max(alpha0, m)
    requires alpha < beta
    requires Bracket(m, M, alpha0, beta)
    requires Bracket(e, f, alpha, beta)
    ensures var m' := if e > m then e else m;
            var M' := if f > M then f else M;
            && Max(alpha, e) == Max(alpha0, m')
            && Bracket(m', M', alpha0, beta)
            && (beta <= Max(alpha, e) ==> beta <= m' <= M')
  {
  }

  /** One column of the minimising loop keeps the bracket. */
  lemma MinStep(alpha: int, beta0: int, beta: int, m: int, M: int, e: int, f: int)
    requires alpha < beta0
    requires beta == Min(beta0, m)
    requires alpha < beta
    requires Bracket(m, M, alpha, beta0)
    requires Bracket(e, f, alpha, beta)
    ensures var m' := if e < m then e else m;
            var M' := if f < M then f else M;
            && Min(beta, e) == Min(beta0, m')
            && Bracket(m', M', alpha, beta0)
            && (Min(beta, e) <= alpha ==> M' <= m' <= alpha)
  {
  }

  // ---------------------------------------------------------------------------
  // The scans

  /** ScanMax returns at least its running best and at least every present value. */
  lemma {:induction false} ScanMaxBound(vals: seq<Option<int>>, col: nat, best: SearchResult)
    requires col <= |vals|
    ensures ScanMax(vals, col, best).score >= best.score
    ensures forall c :: col <= c < |vals| && vals[c].Some? ==> vals[c].value <= ScanMax(vals, col, best).score
    decreases |vals| - col
  {
    if col < |vals| {
      var best' := match vals[col]
        case None => best
        case Some(e) => if e > best.score then SearchResult(e, Some(col)) else best;
      ScanMaxBound(vals, col + 1, best');
    }
  }

  /** ScanMin returns at most its running best and at most every present value. */
  lemma {:induction false} ScanMinBound(vals: seq<Option<int>>, col: nat, best: SearchResult)
    requires col <= |vals|
    ensures ScanMin(vals, col, best).score <= best.score
    ensures forall c :: col <= c < |vals| && vals[c].Some? ==> vals[c].value >= ScanMin(vals, col, best).score
    decreases |vals| - col
  {
    if col < |vals| {
      var best' := match vals[col]
        case None => best
        case Some(e) => if e < best.score then SearchResult(e, Some(col)) else best;
      ScanMinBound(vals, col + 1, best');
    }
  }

  /** ScanMax keeps its running best, or replaces it by a strictly larger value found at the
      column it names, every present value before which is strictly smaller. */
  lemma {:induction false} ScanMaxFirstBest(vals: seq<Option<int>>, col: nat, best: SearchResult)
    requires col <= |vals|
    ensures var r := ScanMax(vals, col, best);
      || r == best
      || (&& r.score > best.score && r.move.Some? && col <= r.move.value < |vals|
          && vals[r.move.value] == Some(r.score)
          && forall c :: col <= c < r.move.value && vals[c].Some? ==> vals[c].value < r.score)
    decreases |vals| - col
  {
    if col < |vals| {
      var best' := match vals[col]
        case None => best
        case Some(e) => if e > best.score then SearchResult(e, Some(col)) else best;
      ScanMaxFirstBest(vals, col + 1, best');
      ScanMaxBound(vals, col + 1, best');
    }
  }

  /** ScanMin keeps its running best, or replaces it by a strictly smaller value found at the
      column it names, every present value before which is strictly larger. */
  lemma {:induction false} ScanMinFirstBest(vals: seq<Option<int>>, col: nat, best: SearchResult)
    requires col <= |vals|
    ensures var r := ScanMin(vals, col, best);
      || r == best
      || (&& r.score < best.score && r.move.Some? && col <= r.move.value < |vals|
          && vals[r.move.value] == Some(r.score)
          && forall c :: col <= c < r.move.value && vals[c].Some? ==> vals[c].value > r.score)
    decreases |vals| - col
  {
    if col < |vals| {
      var best' := match vals[col]
        case None => best
        case Some(e) => if e < best.score then SearchResult(e, Some(col)) else best;
      ScanMinFirstBest(vals, col + 1, best');
      ScanMinBound(vals, col + 1, best');
    }
  }

  /** ScanMax keeps a running best that no present value exceeds. */
  lemma {:induction false} ScanMaxKeeps(vals: seq<Option<int>>, col: nat, best: SearchResult)
    requires col <= |vals|
    requires forall c :: col <= c < |vals| && vals[c].Some? ==> vals[c].value <= best.score
    ensures ScanMax(vals, col, best) == best
    decreases |vals| - col
  {
    if col < |vals| {
      ScanMaxKeeps(vals, col + 1, best);
    }
  }

  /** ScanMin keeps a running best that no present value undercuts. */
  lemma {:induction false} ScanMinKeeps(vals: seq<Option<int>>, col: nat, best: SearchResult)
    requires col <= |vals|
    requires forall c :: col <= c < |vals| && vals[c].Some? ==> vals[c].value >= best.score
    ensures ScanMin(vals, col, best) == best
    decreases |vals| - col
  {
    if col < |vals| {
      ScanMinKeeps(vals, col + 1, best);
    }
  }

  // ---------------------------------------------------------------------------
  // The root call

  /** At a maximising root called with (-INF, +INF), alpha always equals the running best,
      and the pruned loop returns what the unpruned scan returns. */
  lemma {:induction false} RootMaxLoopAgrees(g: Grid, depth: nat, player: int, col: nat, best: SearchResult)
    requires WellFormed(g)
    requires depth > 0
    requires col <= COLS
    requires IsScore(best.score)
    requires best.score < INF
    ensures MaxLoop(g, depth, best.score, INF, player, col, best) == ScanMax(ChildScores(g, depth, true, player), col, best)
    decreases COLS - col
  {
    var vals := ChildScores(g, depth, true, player);
    if col < COLS {
      if !IsValidMove(g, col) {
        RootMaxLoopAgrees(g, depth, player, col + 1, best);
      } else {
        ChildBracket(g, depth, best.score, INF, true, player, col);
        var e := ChildValue(g, depth, best.score, INF, true, player, col);
        var best' := if e > best.score then SearchResult(e, Some(col)) else best;
        if best'.score == INF {
          ScanMaxKeeps(vals, col + 1, best');
        } else {
          RootMaxLoopAgrees(g, depth, player, col + 1, best');
        }
      }
    }
  }

  /** At a minimising root called with (-INF, +INF), beta always equals the running best,
      and the pruned loop returns what the unpruned scan returns. */
  lemma {:induction false} RootMinLoopAgrees(g: Grid, depth: nat, player: int, col: nat, best: SearchResult)
    requires WellFormed(g)
    requires depth > 0
    requires col <= COLS
    requires IsScore(best.score)
    requires best.score > -INF
    ensures MinLoop(g, depth, -INF, best.score, player, col, best) == ScanMin(ChildScores(g, depth, false, player), col, best)
    decreases COLS - col
  {
    var vals := ChildScores(g, depth, false, player);
    if col < COLS {
      if !IsValidMove(g, col) {
        RootMinLoopAgrees(g, depth, player, col + 1, best);
      } else {
        ChildBracket(g, depth, -INF, best.score, false, player, col);
        var e := ChildValue(g, depth, -INF, best.score, false, player, col);
        var best' := if e < best.score then SearchResult(e, Some(col)) else best;
        if best'.score == -INF {
          ScanMinKeeps(vals, col + 1, best');
        } else {
          RootMinLoopAgrees(g, depth, player, col + 1, best');
        }
      }
    }
  }

  /** Called from the root with (-INF, +INF), as the main loop calls it, the alpha-beta
      search returns the same score and the same move as the search without pruning. */
  lemma AlphaBetaRootAgrees(g: Grid, depth: nat, maximizing: bool, player: int)
    requires WellFormed(g)
    ensures Minimax(g, depth, -INF, INF, maximizing, player) == FullMinimax(g, depth, maximizing, player)
  {
    if !IsLeaf(g, depth) {
      if maximizing {
        RootMaxLoopAgrees(g, depth, player, 0, SearchResult(-INF, None));
      } else {
        RootMinLoopAgrees(g, depth, player, 0, SearchResult(INF, None));
      }
    }
  }
}
