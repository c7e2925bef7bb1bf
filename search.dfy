// The values ReversiBoard.minimax computes, as the code states them: the
// cutoff scores node.playerTurn with the heuristic, moves are generated for
// playerTurn at maximizing nodes and for the other colour at minimizing nodes,
// a node without moves scores the raw piece count of playerTurn, only the
// maximizing branch prunes, and the minimizing branch returns 0.

module Search {
  import opened Cells
  import opened Enumeration
  import opened Evaluation
  import opened Pruning

  /** The colour whose moves a node generates. */
  function Mover(turn: Color, maxPlayer: bool): Color
  {
    if maxPlayer then turn else Opp(turn)
  }

  /** A position the search can score: a square board of size at least 1. */
  predicate Scorable(n: Node)
  {
    IsSquare(n.grid) && |n.grid| >= 1
  }

  /** The piece count a node without moves returns: getValue(playerTurn), negated when minimizing. */
  function EndScore(n: Node, maxPlayer: bool): int
  {
    var v: int := Count(n.grid, Piece(n.turn));
    if maxPlayer then v else -v
  }

  /** What minimax(false, level, alpha, beta, n) returns, whatever alpha and beta are. */
  function MinValue(level: int, n: Node, maxLevel: int): (r: int)
    requires Scorable(n)
  {
    if level > maxLevel then Heuristic(n.grid, n.turn)
    else if |LegalMoves(n.grid, Mover(n.turn, false))| == 0 then EndScore(n, false)
    else 0
  }

  /** The values the maximizing loop sees, child by child. */
  function ChildValues(kids: seq<Node>, level: int, maxLevel: int): (r: seq<int>)
    requires forall k :: 0 <= k < |kids| ==> Scorable(kids[k])
    ensures |r| == |kids|
  {
    seq(|kids|, k requires 0 <= k < |kids| => MinValue(level, kids[k], maxLevel))
  }

  /** The children of a position searched at a maximizing node below the cutoff. */
  function MaxKids(n: Node): (kids: seq<Node>)
    requires Scorable(n)
    ensures forall k :: 0 <= k < |kids| ==> Scorable(kids[k]) && |kids[k].grid| == |n.grid|
  {
    LegalMoves(n.grid, Mover(n.turn, true))
  }

  /** What minimax(true, level, alpha, beta, n) returns. */
  function MaxValue(level: int, alpha: int, beta: int, n: Node, maxLevel: int): (r: int)
    requires Scorable(n)
  {
    if level > maxLevel then Heuristic(n.grid, n.turn)
    else
      var kids := MaxKids(n);
      if |kids| == 0 then EndScore(n, true)
      else Scan(ChildValues(kids, level + 1, maxLevel), alpha, beta).0
  }

  /** bestMoveLocation at the end of a maximizing node that has children. */
  function BestChild(level: int, alpha: int, beta: int, n: Node, maxLevel: int): (b: nat)
    requires Scorable(n)
    ensures |MaxKids(n)| > 0 ==> b < |MaxKids(n)|
  {
    Scan(ChildValues(MaxKids(n), level + 1, maxLevel), alpha, beta).1
  }

  /** What minimax(maxPlayer, level, alpha, beta, n) returns. */
  function Value(maxPlayer: bool, level: int, alpha: int, beta: int, n: Node, maxLevel: int): int
    requires Scorable(n)
  {
    if maxPlayer then MaxValue(level, alpha, beta, n, maxLevel) else MinValue(level, n, maxLevel)
  }

  /** A minimizing node's value lies within n*n + 4n of zero. */
  lemma MinValueBound(level: int, n: Node, maxLevel: int)
    requires Scorable(n)
    ensures -(|n.grid| * |n.grid| + 4 * |n.grid|) <= MinValue(level, n, maxLevel) <= |n.grid| * |n.grid| + 4 * |n.grid|
  {
    HeuristicBound(n.grid, n.turn);
    CountBound(n.grid, Piece(n.turn));
  }

  lemma ChildValuesBound(kids: seq<Node>, level: int, maxLevel: int, size: nat)
    requires forall k :: 0 <= k < |kids| ==> Scorable(kids[k]) && |kids[k].grid| == size
    ensures forall k :: 0 <= k < |kids| ==>
      -(size * size + 4 * size) <= ChildValues(kids, level, maxLevel)[k] <= size * size + 4 * size
  {
    forall k | 0 <= k < |kids|
      ensures -(size * size + 4 * size) <= ChildValues(kids, level, maxLevel)[k] <= size * size + 4 * size
    {
      MinValueBound(level, kids[k], maxLevel);
    }
  }

  /**
   * Below the cutoff, a maximizing node with children returns the largest value
   * among the children it evaluates before beta <= alpha, and bestMoveLocation is
   * 0 unless some child beats alpha, in which case it is the earliest child with
   * that largest value.
   */
  lemma MaxValueSpec(level: int, alpha: int, beta: int, n: Node, maxLevel: int)
    requires Scorable(n) && level <= maxLevel
    requires |n.grid| * |n.grid| + 4 * |n.grid| <= MaxInt
    ensures var vals := ChildValues(MaxKids(n), level + 1, maxLevel);
      var e, r := Evaluated(vals, alpha, beta), MaxValue(level, alpha, beta, n, maxLevel);
      |vals| > 0 ==>
        && (forall k :: 0 <= k < e ==> vals[k] <= r)
        && (exists k :: 0 <= k < e && vals[k] == r)
        && BestSoFar(vals, alpha, e, BestChild(level, alpha, beta, n, maxLevel))
  {
    var kids := MaxKids(n);
    var vals := ChildValues(kids, level + 1, maxLevel);
    if |vals| > 0 {
      ChildValuesBound(kids, level + 1, maxLevel, |n.grid|);
      assert forall k :: 0 <= k < |vals| ==> vals[k] >= MinInt;
      ScanSpec(vals, alpha, beta);
    }
  }

  /**
   * The root call minimax(true, 0, Integer.MIN_VALUE, Integer.MAX_VALUE, board) prunes
   * nothing: it returns the largest child value and bestMove is the earliest child
   * holding it.
   */
  lemma RootValue(n: Node, maxLevel: int)
    requires Scorable(n) && 0 <= maxLevel && |MaxKids(n)| > 0
    requires |n.grid| * |n.grid| + 4 * |n.grid| < MaxInt
    ensures var vals, r, b := ChildValues(MaxKids(n), 1, maxLevel), MaxValue(0, MinInt, MaxInt, n, maxLevel),
        BestChild(0, MinInt, MaxInt, n, maxLevel);
      && (forall k :: 0 <= k < |vals| ==> vals[k] <= r)
      && b < |vals| && vals[b] == r
      && (forall k :: 0 <= k < b ==> vals[k] < r)
  {
    var kids := MaxKids(n);
    ChildValuesBound(kids, 1, maxLevel, |n.grid|);
    OpenWindowScan(ChildValues(kids, 1, maxLevel));
  }
}
