// Legal moves of a position, in the order ReversiBoard.findValidMoves and
// storeValidMoves visit the squares: x outer, y inner, both ascending.

module Enumeration {
  import opened Cells
  import opened Capture

  /** (p, q) comes strictly before (p', q') in the x-outer, y-inner visiting order. */
  predicate Earlier(s: (int, int), t: (int, int))
  {
    s.0 < t.0 || (s.0 == t.0 && s.1 < t.1)
  }

  /** An n-by-n matrix of flags. */
  predicate IsSquareMask(m: seq<seq<bool>>)
  {
    forall i :: 0 <= i < |m| ==> |m[i]| == |m|
  }

  /** (i, j) is a point the x-outer, y-inner loops over an n-by-n board pass: inside row i, or past the last row. */
  predicate LoopPos(n: int, i: int, j: int)
  {
    (0 <= i < n && 0 <= j <= n) || (i == n && j == 0)
  }

  /** The squares `m` marks that the loops visit before reaching (i, j), in visiting order. */
  function Upto(m: seq<seq<bool>>, i: int, j: int): (r: seq<(int, int)>)
    requires IsSquareMask(m) && LoopPos(|m|, i, j)
    ensures forall k :: 0 <= k < |r| ==> OnBoard(|m|, r[k].0, r[k].1) && Earlier(r[k], (i, j))
    decreases i, j
  {
    if j > 0 then Upto(m, i, j - 1) + (if m[i][j - 1] then [(i, j - 1)] else [])
    else if i > 0 then Upto(m, i - 1, |m|)
    else []
  }

  /** Which squares are legal moves for c. */
  function LegalMask(g: Grid, c: Color): (m: seq<seq<bool>>)
    requires IsSquare(g)
    ensures IsSquareMask(m) && |m| == |g|
  {
    seq(|g|, p requires 0 <= p < |g| => seq(|g|, q requires 0 <= q < |g| => Legal(g, p, q, c)))
  }

  /** Every square where c may move, in the order the enumeration loops find them. */
  function Targets(g: Grid, c: Color): (r: seq<(int, int)>)
    requires IsSquare(g)
    ensures forall k :: 0 <= k < |r| ==> OnBoard(|g|, r[k].0, r[k].1) && Legal(g, r[k].0, r[k].1, c)
    ensures forall k, l :: 0 <= k < l < |r| ==> Earlier(r[k], r[l])
  {
    var m := LegalMask(g, c);
    UptoMarked(m, |g|, 0);
    UptoOrdered(m, |g|, 0);
    Upto(m, |g|, 0)
  }

  /** The position after c plays at t: the board after the move, with the opponent to play. */
  function Child(g: Grid, c: Color, t: (int, int)): Node
    requires IsSquare(g) && OnBoard(|g|, t.0, t.1)
  {
    Node(Apply(g, t.0, t.1, c), Opp(c))
  }

  /** The positions after c plays at each of the squares ts on g, in order. */
  function Children(g: Grid, c: Color, ts: seq<(int, int)>): (r: seq<Node>)
    requires IsSquare(g) && forall k :: 0 <= k < |ts| ==> OnBoard(|g|, ts[k].0, ts[k].1)
    ensures |r| == |ts|
    ensures forall k :: 0 <= k < |r| ==> r[k].turn == Opp(c) && IsSquare(r[k].grid) && |r[k].grid| == |g|
    decreases |ts|
  {
    if |ts| == 0 then []
    else Children(g, c, ts[..|ts| - 1]) + [Child(g, c, ts[|ts| - 1])]
  }

  /** The k-th child is the move at the k-th square. */
  lemma {:induction false} ChildrenAt(g: Grid, c: Color, ts: seq<(int, int)>, k: int)
    requires IsSquare(g) && forall k :: 0 <= k < |ts| ==> OnBoard(|g|, ts[k].0, ts[k].1)
    requires 0 <= k < |ts|
    ensures Children(g, c, ts)[k] == Child(g, c, ts[k])
    decreases |ts|
  {
    if k < |ts| - 1 {
      ChildrenAt(g, c, ts[..|ts| - 1], k);
    }
  }

  /** The children of a list and one more square. */
  lemma ChildrenSnoc(g: Grid, c: Color, ts: seq<(int, int)>, t: (int, int))
    requires IsSquare(g) && forall k :: 0 <= k < |ts| ==> OnBoard(|g|, ts[k].0, ts[k].1)
    requires OnBoard(|g|, t.0, t.1)
    ensures Children(g, c, ts + [t]) == Children(g, c, ts) + [Child(g, c, t)]
  {
    assert (ts + [t])[..|ts|] == ts;
  }

  /** The boards findValidMoves returns, one per legal square, in visiting order. */
  function LegalMoves(g: Grid, c: Color): (r: seq<Node>)
    requires IsSquare(g)
    ensures |r| == |Targets(g, c)|
    ensures forall k :: 0 <= k < |r| ==>
      r[k].turn == Opp(c) && IsSquare(r[k].grid) && |r[k].grid| == |g|
      && Count(r[k].grid, Empty) == Count(g, Empty) - 1
  {
    var ts := Targets(g, c);
    ChildrenCounts(g, c, ts);
    Children(g, c, ts)
  }

  /** Each child of a list of legal squares has one blank square fewer. */
  lemma ChildrenCounts(g: Grid, c: Color, ts: seq<(int, int)>)
    requires IsSquare(g) && forall k :: 0 <= k < |ts| ==> OnBoard(|g|, ts[k].0, ts[k].1) && Legal(g, ts[k].0, ts[k].1, c)
    ensures forall k :: 0 <= k < |ts| ==> Count(Children(g, c, ts)[k].grid, Empty) == Count(g, Empty) - 1
  {
    forall k | 0 <= k < |ts|
      ensures Count(Children(g, c, ts)[k].grid, Empty) == Count(g, Empty) - 1
    {
      var t := ts[k];
      ChildrenAt(g, c, ts, k);
      assert Children(g, c, ts)[k].grid == Apply(g, t.0, t.1, c);
      MoveCounts(g, t.0, t.1, c);
    }
  }

  /** Neither player has a legal move. */
  predicate GameOver(g: Grid)
    requires IsSquare(g)
  {
    |LegalMoves(g, Black)| == 0 && |LegalMoves(g, White)| == 0
  }

  /** Every square Upto lists is marked. */
  lemma {:induction false} UptoMarked(m: seq<seq<bool>>, i: int, j: int)
    requires IsSquareMask(m) && LoopPos(|m|, i, j)
    ensures forall k :: 0 <= k < |Upto(m, i, j)| ==> m[Upto(m, i, j)[k].0][Upto(m, i, j)[k].1]
    decreases i, j
  {
    if j > 0 {
      UptoMarked(m, i, j - 1);
    } else if i > 0 {
      UptoMarked(m, i - 1, |m|);
    }
  }

  /** Upto lists its squares in strictly increasing visiting order. */
  lemma {:induction false} UptoOrdered(m: seq<seq<bool>>, i: int, j: int)
    requires IsSquareMask(m) && LoopPos(|m|, i, j)
    ensures forall k, l :: 0 <= k < l < |Upto(m, i, j)| ==> Earlier(Upto(m, i, j)[k], Upto(m, i, j)[l])
    decreases i, j
  {
    if j > 0 {
      UptoOrdered(m, i, j - 1);
    } else if i > 0 {
      UptoOrdered(m, i - 1, |m|);
    }
  }

  /** Upto lists exactly the marked squares visited before (i, j). */
  lemma {:induction false} UptoComplete(m: seq<seq<bool>>, i: int, j: int, p: int, q: int)
    requires IsSquareMask(m) && LoopPos(|m|, i, j)
    ensures (p, q) in Upto(m, i, j) <==> OnBoard(|m|, p, q) && Earlier((p, q), (i, j)) && m[p][q]
    decreases i, j
  {
    if j > 0 {
      UptoComplete(m, i, j - 1, p, q);
    } else if i > 0 {
      UptoComplete(m, i - 1, |m|, p, q);
    }
  }

  /** storeValidMoves lists a square exactly when moving there is legal. */
  lemma TargetsComplete(g: Grid, c: Color, p: int, q: int)
    requires IsSquare(g)
    ensures (p, q) in Targets(g, c) <==> OnBoard(|g|, p, q) && Legal(g, p, q, c)
  {
    UptoComplete(LegalMask(g, c), |g|, 0, p, q);
  }

  /** No listed move names an occupied square, and none is listed twice. */
  lemma TargetsEmptyAndDistinct(g: Grid, c: Color)
    requires IsSquare(g)
    ensures forall k :: 0 <= k < |Targets(g, c)| ==> g[Targets(g, c)[k].0][Targets(g, c)[k].1] == Empty
    ensures forall k, l :: 0 <= k < l < |Targets(g, c)| ==> Targets(g, c)[k] != Targets(g, c)[l]
  {
  }

  /** The k-th returned board is the k-th listed move played on the position. */
  lemma LegalMovesAt(g: Grid, c: Color, k: int)
    requires IsSquare(g) && 0 <= k < |Targets(g, c)|
    ensures LegalMoves(g, c)[k] == Child(g, c, Targets(g, c)[k])
  {
    ChildrenAt(g, c, Targets(g, c), k);
  }

  /** No board is returned exactly when no square is a legal move. */
  lemma NoMovesIff(g: Grid, c: Color)
    requires IsSquare(g)
    ensures |LegalMoves(g, c)| == 0 <==> forall p, q :: OnBoard(|g|, p, q) ==> !Legal(g, p, q, c)
  {
    if |LegalMoves(g, c)| != 0 {
      var t := Targets(g, c)[0];
      assert OnBoard(|g|, t.0, t.1) && Legal(g, t.0, t.1, c);
    } else {
      forall p, q | OnBoard(|g|, p, q)
        ensures !Legal(g, p, q, c)
      {
        TargetsComplete(g, c, p, q);
      }
    }
  }

  /** isGameOver: neither colour has a legal square. */
  lemma GameOverIff(g: Grid)
    requires IsSquare(g)
    ensures GameOver(g) <==>
      forall p, q :: OnBoard(|g|, p, q) ==> !Legal(g, p, q, Black) && !Legal(g, p, q, White)
  {
    NoMovesIff(g, Black);
    NoMovesIff(g, White);
  }

  /** A board with no blank square is a finished game. */
  lemma FullBoardIsOver(g: Grid)
    requires IsSquare(g) && Count(g, Empty) == 0
    ensures GameOver(g)
  {
    forall p, q | OnBoard(|g|, p, q)
      ensures g[p][q] != Empty
    {
      CountSetCell(g, p, q, X, Empty);
    }
    GameOverIff(g);
  }
}
