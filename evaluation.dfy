// Board evaluation: piece counts, the piece difference and the corner-weighted
// heuristic of ReversiBoard.reversiHeuristic.

module Evaluation {
  import opened Cells

  /** Pieces of p minus pieces of p's opponent (valueDiffBlack for Black, valueDiffWhite for White). */
  function Diff(g: Grid, p: Color): int
  {
    Count(g, Piece(p)) - Count(g, Piece(Opp(p)))
  }

  /** +1 when the corner holds p's piece, -1 when it holds the opponent's, 0 when blank. */
  function CornerScore(v: Cell, p: Color): int
  {
    if v == Piece(p) then 1 else if v == Piece(Opp(p)) then -1 else 0
  }

  /** The corners in the order the heuristic inspects them. */
  function Corners(g: Grid): (r: seq<Cell>)
    requires IsSquare(g) && |g| >= 1
    ensures |r| == 4
  {
    var n := |g|;
    [g[0][0], g[n - 1][n - 1], g[n - 1][0], g[0][n - 1]]
  }

  /** The heuristic's corner tally `val`: one point per corner held, minus one per corner lost. */
  function CornerTally(g: Grid, p: Color): int
    requires IsSquare(g) && |g| >= 1
  {
    var k := Corners(g);
    CornerScore(k[0], p) + CornerScore(k[1], p) + CornerScore(k[2], p) + CornerScore(k[3], p)
  }

  /** p holds at least one of the four corners (the guard of the corner bonus). */
  predicate HoldsCorner(g: Grid, p: Color)
    requires IsSquare(g) && |g| >= 1
  {
    Piece(p) in Corners(g)
  }

  /**
   * reversiHeuristic(p): the piece difference for p, plus the corner tally
   * times the board size when p holds a corner of its own.
   */
  function Heuristic(g: Grid, p: Color): int
    requires IsSquare(g) && |g| >= 1
  {
    if HoldsCorner(g, p) then Diff(g, p) + CornerTally(g, p) * |g| else Diff(g, p)
  }

  /** valueDiffWhite is the negation of valueDiffBlack. */
  lemma DiffAntisymmetric(g: Grid)
    ensures Diff(g, White) == -Diff(g, Black)
  {
  }

  /** A piece count lies in 0..n*n, and the counts of both players and the blanks add up to n*n. */
  lemma CountRange(g: Grid, v: Cell)
    requires IsSquare(g)
    ensures 0 <= Count(g, v) <= |g| * |g|
    ensures Count(g, Empty) + Count(g, X) + Count(g, O) == |g| * |g|
  {
    CountBound(g, v);
    CountPartition(g);
  }

  /** The piece difference never exceeds the number of squares. */
  lemma DiffBound(g: Grid, p: Color)
    requires IsSquare(g)
    ensures -(|g| * |g|) <= Diff(g, p) <= |g| * |g|
  {
    CountPartition(g);
  }

  /** The corner tally counts four corners, so it lies in -4..4, and it is antisymmetric. */
  lemma CornerTallyFacts(g: Grid, p: Color)
    requires IsSquare(g) && |g| >= 1
    ensures -4 <= CornerTally(g, p) <= 4
    ensures CornerTally(g, Opp(p)) == -CornerTally(g, p)
  {
  }

  /** The heuristic is bounded by the piece difference plus four corners of weight n. */
  lemma HeuristicBound(g: Grid, p: Color)
    requires IsSquare(g) && |g| >= 1
    ensures -(|g| * |g| + 4 * |g|) <= Heuristic(g, p) <= |g| * |g| + 4 * |g|
  {
    DiffBound(g, p);
    var t, n := CornerTally(g, p), |g|;
    assert -4 <= t <= 4;
    assert -4 * n <= t * n <= 4 * n by {
      if t >= 0 { assert t * n <= 4 * n; } else { assert (-t) * n <= 4 * n; }
    }
  }

  /**
   * The two players' heuristics add up to zero except when exactly one of them
   * holds a corner: then the sum is that player's corner tally times n.
   */
  lemma HeuristicSum(g: Grid, p: Color)
    requires IsSquare(g) && |g| >= 1
    ensures HoldsCorner(g, p) == HoldsCorner(g, Opp(p)) ==> Heuristic(g, p) + Heuristic(g, Opp(p)) == 0
    ensures HoldsCorner(g, p) && !HoldsCorner(g, Opp(p)) ==>
      Heuristic(g, p) + Heuristic(g, Opp(p)) == CornerTally(g, p) * |g|
  {
    CornerTallyFacts(g, p);
    var t, n := CornerTally(g, p), |g|;
    assert CornerTally(g, Opp(p)) * n == -(t * n);
  }
}
