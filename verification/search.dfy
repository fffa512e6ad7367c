/** The adversarial search of puissance4.py: depth-limited minimax with alpha-beta pruning,
    kept as the source writes it, and the same recursion without pruning as the reference
    it is compared with.

    The source's -inf/+inf (floats) become the integer sentinels -INF/+INF. Every score the
    search handles is one of -INF, -WIN, 0, WIN, INF, and comparisons among those behave as
    the float comparisons do.

    The column loop with its `break` becomes a recursive function over the column index. */
module Search {
  import opened Board
  import opened Winner

  /** Stands for np.inf: larger than any score evaluate can give. */
  const INF: int := 1_000_000

  /** The values a search score can take. */
  predicate IsScore(s: int) {
    s == -INF || s == -WIN || s == 0 || s == WIN || s == INF
  }

  datatype SearchResult = SearchResult(score: int, move: Option<int>)

  function Max(a: int, b: int): int { if a >= b then a else b }
  function Min(a: int, b: int): int { if a <= b then a else b }

  /** A node where the search stops: no depth left, or either player has already won. */
  predicate IsLeaf(g: Grid, depth: nat)
    requires WellFormed(g)
  {
    depth == 0 || IsWinner(g, 1) || IsWinner(g, -1)
  }

  /** The token a node places in its children: `player` at a maximising node, `-player`
      at a minimising one. */
  function Mover(maximizing: bool, player: int): int
  {
    if maximizing then player else -player
  }

  /** The board after the node's mover drops a token into column col. */
  function Child(g: Grid, col: int, maximizing: bool, player: int): (h: Grid)
    requires WellFormed(g)
    requires 0 <= col < COLS
    ensures WellFormed(h)
  {
    MakeMove(g, col, Mover(maximizing, player)).board
  }

  // ---------------------------------------------------------------------------
  // minimax with alpha-beta pruning, as written

  /** minimax(board, depth, alpha, beta, maximizing, player). */
  function Minimax(g: Grid, depth: nat, alpha: int, beta: int, maximizing: bool, player: int): (r: SearchResult)
    requires WellFormed(g)
    ensures IsScore(r.score)
    decreases depth, COLS + 1
  {
    if IsLeaf(g, depth) then SearchResult(Evaluate(g), None)
    else if maximizing then MaxLoop(g, depth, alpha, beta, player, 0, SearchResult(-INF, None))
    else MinLoop(g, depth, alpha, beta, player, 0, SearchResult(INF, None))
  }

  /** The score of the recursive call on the child reached by playing column col: one ply
      less, the other role, and `-player`. */
  function ChildValue(g: Grid, depth: nat, alpha: int, beta: int, maximizing: bool, player: int, col: int): (e: int)
    requires WellFormed(g)
    requires depth > 0
    requires 0 <= col < COLS
    ensures IsScore(e)
    decreases depth, 0
  {
    Minimax(Child(g, col, maximizing, player), depth - 1, alpha, beta, !maximizing, -player).score
  }

  /** The maximising loop over columns col, col + 1, ... with running best and alpha. */
  function MaxLoop(g: Grid, depth: nat, alpha: int, beta: int, player: int, col: nat, best: SearchResult): (r: SearchResult)
    requires WellFormed(g)
    requires depth > 0
    requires col <= COLS
    requires IsScore(best.score)
    ensures IsScore(r.score)
    ensures r.score >= best.score
    decreases depth, COLS - col
  {
    if col == COLS then best
    else if !IsValidMove(g, col) then MaxLoop(g, depth, alpha, beta, player, col + 1, best)
    else
      var e := ChildValue(g, depth, alpha, beta, true, player, col);
      var best' := if e > best.score then SearchResult(e, Some(col)) else best;
      var alpha' := Max(alpha, e);
      if beta <= alpha' then best'
      else MaxLoop(g, depth, alpha', beta, player, col + 1, best')
  }

  /** The minimising loop over columns col, col + 1, ... with running best and beta. */
  function MinLoop(g: Grid, depth: nat, alpha: int, beta: int, player: int, col: nat, best: SearchResult): (r: SearchResult)
    requires WellFormed(g)
    requires depth > 0
    requires col <= COLS
    requires IsScore(best.score)
    ensures IsScore(r.score)
    ensures r.score <= best.score
    decreases depth, COLS - col
  {
    if col == COLS then best
    else if !IsValidMove(g, col) then MinLoop(g, depth, alpha, beta, player, col + 1, best)
    else
      var e := ChildValue(g, depth, alpha, beta, false, player, col);
      var best' := if e < best.score then SearchResult(e, Some(col)) else best;
      var beta' := Min(beta, e);
      if beta' <= alpha then best'
      else MinLoop(g, depth, alpha, beta', player, col + 1, best')
  }

  // ---------------------------------------------------------------------------
  // The reference: the same recursion without alpha, beta and the pruning break

  /** The unpruned value of a node: the static evaluation at a leaf, otherwise the best child
      score for the side to move, with the lowest column reaching it as the move. */
  function FullMinimax(g: Grid, depth: nat, maximizing: bool, player: int): (r: SearchResult)
    requires WellFormed(g)
    ensures IsScore(r.score)
    decreases depth, 2
  {
    if IsLeaf(g, depth) then SearchResult(Evaluate(g), None)
    else if maximizing then ScanMax(ChildScores(g, depth, true, player), 0, SearchResult(-INF, None))
    else ScanMin(ChildScores(g, depth, false, player), 0, SearchResult(INF, None))
  }

  /** The unpruned scores of the children of a node in column order, None for a column that
      cannot be played. */
  function ChildScores(g: Grid, depth: nat, maximizing: bool, player: int): (vals: seq<Option<int>>)
    requires WellFormed(g)
    requires depth > 0
    ensures |vals| == COLS
    ensures forall c :: 0 <= c < COLS ==> (vals[c].Some? <==> IsValidMove(g, c))
    ensures forall c :: 0 <= c < COLS && vals[c].Some? ==> IsScore(vals[c].value)
    decreases depth, 1
  {
    seq(COLS, c requires 0 <= c < COLS =>
      if IsValidMove(g, c) then Some(FullChildValue(g, depth, maximizing, player, c)) else None)
  }

  /** The unpruned score of the child reached by playing column col. */
  function FullChildValue(g: Grid, depth: nat, maximizing: bool, player: int, col: int): (e: int)
    requires WellFormed(g)
    requires depth > 0
    requires 0 <= col < COLS
    ensures IsScore(e)
    decreases depth, 0
  {
    FullMinimax(Child(g, col, maximizing, player), depth - 1, !maximizing, -player).score
  }

  /** Scan of vals from col on for the largest present value, replacing the running best only
      on a strict improvement. The result is the running best or a value found at the column
      it names. */
  function ScanMax(vals: seq<Option<int>>, col: nat, best: SearchResult): (r: SearchResult)
    requires col <= |vals|
    ensures || r == best
            || (r.move.Some? && col <= r.move.value < |vals| && vals[r.move.value] == Some(r.score))
    decreases |vals| - col
  {
    if col == |vals| then best
    else match vals[col]
      case None => ScanMax(vals, col + 1, best)
      case Some(e) => ScanMax(vals, col + 1, if e > best.score then SearchResult(e, Some(col)) else best)
  }

  /** Scan of vals from col on for the smallest present value, replacing the running best only
      on a strict improvement. */
  function ScanMin(vals: seq<Option<int>>, col: nat, best: SearchResult): (r: SearchResult)
    requires col <= |vals|
    ensures || r == best
            || (r.move.Some? && col <= r.move.value < |vals| && vals[r.move.value] == Some(r.score))
    decreases |vals| - col
  {
    if col == |vals| then best
    else match vals[col]
      case None => ScanMin(vals, col + 1, best)
      case Some(e) => ScanMin(vals, col + 1, if e < best.score then SearchResult(e, Some(col)) else best)
  }
}
