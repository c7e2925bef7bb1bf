// Capture rules of a Reversi move (ReversiBoard.movePiece) on board values.
//
// Two descriptions of the board after a move are given. `Apply` says which
// squares change, square by square, all at once. `Swept` follows the Java
// loops: the nine directions (a, b) in the order a = -1..1, b = -1..1, each
// scanned on the board as the directions before it left it, with the flips of
// one ray written one square at a time. `SweptIsApply` shows the two agree.

module Capture {
  import opened Cells

  /** A step of the Java direction loops: both offsets in -1..1 ((0, 0) included). */
  predicate IsDir(a: int, b: int)
  {
    -1 <= a <= 1 && -1 <= b <= 1
  }

  /** The coordinate k steps from x along offset d. */
  function Along(x: int, d: int, k: int): int
    requires -1 <= d <= 1
  {
    if d == 1 then x + k else if d == -1 then x - k else x
  }

  /** `Along` is the Java expression `x + d * k`. */
  lemma AlongIsProduct(x: int, d: int, k: int)
    requires -1 <= d <= 1
    ensures Along(x, d, k) == x + d * k
  {
  }

  function Sign(d: int): int
  {
    if d > 0 then 1 else if d < 0 then -1 else 0
  }

  function Abs(d: int): nat
  {
    if d < 0 then -d else d
  }

  /** Chebyshev distance: the number of steps from (x, y) to (p, q) along a ray. */
  function Dist(x: int, y: int, p: int, q: int): nat
  {
    if Abs(p - x) >= Abs(q - y) then Abs(p - x) else Abs(q - y)
  }

  /** (p, q) is on the ray that leaves (x, y) with offsets (a, b), at one step or more. */
  predicate OnRay(x: int, y: int, a: int, b: int, p: int, q: int)
  {
    (p, q) != (x, y) && (p == x || q == y || Abs(p - x) == Abs(q - y))
    && Sign(p - x) == a && Sign(q - y) == b
  }

  /** Step s of ray (a, b) is the square on that ray at distance s, and only it. */
  lemma StepIff(x: int, y: int, a: int, b: int, s: int, p: int, q: int)
    requires IsDir(a, b) && (a, b) != (0, 0) && s >= 1
    ensures (p == Along(x, a, s) && q == Along(y, b, s)) <==> (OnRay(x, y, a, b, p, q) && Dist(x, y, p, q) == s)
  {
  }

  /** Length of the run of squares holding `o` on ray (a, b), starting at step k. */
  function Run(g: Grid, x: int, y: int, a: int, b: int, o: Cell, k: nat): nat
    requires IsSquare(g) && OnBoard(|g|, x, y) && IsDir(a, b) && (a, b) != (0, 0)
    decreases |g| - k
  {
    var p, q := Along(x, a, k), Along(y, b, k);
    if OnBoard(|g|, p, q) && g[p][q] == o then 1 + Run(g, x, y, a, b, o, k + 1) else 0
  }

  /** The run from step k holds `o` on each of its steps, and the step just past it does not. */
  lemma {:induction false} RunSpec(g: Grid, x: int, y: int, a: int, b: int, o: Cell, k: nat)
    requires IsSquare(g) && OnBoard(|g|, x, y) && IsDir(a, b) && (a, b) != (0, 0)
    ensures var r := Run(g, x, y, a, b, o, k);
      && (forall s :: k <= s < k + r ==>
        OnBoard(|g|, Along(x, a, s), Along(y, b, s)) && g[Along(x, a, s)][Along(y, b, s)] == o)
      && !(OnBoard(|g|, Along(x, a, k + r), Along(y, b, k + r)) && g[Along(x, a, k + r)][Along(y, b, k + r)] == o)
    decreases |g| - k
  {
    var p, q := Along(x, a, k), Along(y, b, k);
    if OnBoard(|g|, p, q) && g[p][q] == o {
      RunSpec(g, x, y, a, b, o, k + 1);
    }
  }

  /** A run that starts at step j and stops before step k has length k - j. */
  lemma {:induction false} RunLength(g: Grid, x: int, y: int, a: int, b: int, o: Cell, j: nat, k: nat)
    requires IsSquare(g) && OnBoard(|g|, x, y) && IsDir(a, b) && (a, b) != (0, 0) && j <= k
    requires forall s :: j <= s < k ==>
      OnBoard(|g|, Along(x, a, s), Along(y, b, s)) && g[Along(x, a, s)][Along(y, b, s)] == o
    requires !(OnBoard(|g|, Along(x, a, k), Along(y, b, k)) && g[Along(x, a, k)][Along(y, b, k)] == o)
    ensures Run(g, x, y, a, b, o, j) == k - j
    decreases k - j
  {
    if j < k {
      RunLength(g, x, y, a, b, o, j + 1, k);
    }
  }

  /**
   * A walk that passed opponent pieces on steps 1..k-1 and stopped at step k
   * flips exactly when step k holds one of c's pieces after at least one
   * opponent piece, and then it flips k - 1.
   */
  lemma ScanOutcome(g: Grid, x: int, y: int, a: int, b: int, c: Color, k: nat)
    requires IsSquare(g) && OnBoard(|g|, x, y) && IsDir(a, b) && (a, b) != (0, 0) && k >= 1
    requires forall s :: 1 <= s < k ==>
      OnBoard(|g|, Along(x, a, s), Along(y, b, s)) && g[Along(x, a, s)][Along(y, b, s)] == Piece(Opp(c))
    requires !(OnBoard(|g|, Along(x, a, k), Along(y, b, k)) && g[Along(x, a, k)][Along(y, b, k)] == Piece(Opp(c)))
    ensures Flips(g, x, y, a, b, c) > 0 <==>
      k > 1 && OnBoard(|g|, Along(x, a, k), Along(y, b, k)) && g[Along(x, a, k)][Along(y, b, k)] == Piece(c)
    ensures Flips(g, x, y, a, b, c) > 0 ==> Flips(g, x, y, a, b, c) == k - 1
  {
    RunLength(g, x, y, a, b, Piece(Opp(c)), 1, k);
  }

  /** Steps 1..m of ray (a, b) hold the opponent's pieces and step m + 1 holds one of c's. */
  predicate Bracketed(g: Grid, x: int, y: int, a: int, b: int, c: Color, m: int)
    requires IsSquare(g) && IsDir(a, b)
  {
    m >= 1 && (a, b) != (0, 0)
    && (forall s :: 1 <= s <= m ==>
          OnBoard(|g|, Along(x, a, s), Along(y, b, s)) && g[Along(x, a, s)][Along(y, b, s)] == Piece(Opp(c)))
    && OnBoard(|g|, Along(x, a, m + 1), Along(y, b, m + 1))
    && g[Along(x, a, m + 1)][Along(y, b, m + 1)] == Piece(c)
  }

  /**
   * Number of opponent pieces that `c` turns over on ray (a, b) by playing at
   * (x, y): the opponent run next to (x, y) when a piece of c's closes it, else
   * zero. Direction (0, 0) never captures.
   */
  function Flips(g: Grid, x: int, y: int, a: int, b: int, c: Color): (r: nat)
    requires IsSquare(g) && OnBoard(|g|, x, y) && IsDir(a, b)
    ensures r > 0 ==> Bracketed(g, x, y, a, b, c, r)
  {
    if a == 0 && b == 0 then 0
    else
      RunSpec(g, x, y, a, b, Piece(Opp(c)), 1);
      var m := Run(g, x, y, a, b, Piece(Opp(c)), 1);
      var p, q := Along(x, a, m + 1), Along(y, b, m + 1);
      if m > 0 && OnBoard(|g|, p, q) && g[p][q] == Piece(c) then m else 0
  }

  /** A ray flips exactly m >= 1 pieces iff it is an opponent run of length m closed by a mover piece. */
  lemma FlipsExactly(g: Grid, x: int, y: int, a: int, b: int, c: Color, m: int)
    requires IsSquare(g) && OnBoard(|g|, x, y) && IsDir(a, b)
    ensures (m >= 1 && Flips(g, x, y, a, b, c) == m) <==> Bracketed(g, x, y, a, b, c, m)
  {
    if Bracketed(g, x, y, a, b, c, m) {
      var o := Piece(Opp(c));
      var r := Run(g, x, y, a, b, o, 1);
      RunSpec(g, x, y, a, b, o, 1);
      assert r >= m;
    }
  }

  /** Positions of the sweep: (i, j) is where the nested direction loops stand. */
  predicate SweepPos(i: int, j: int)
  {
    (-1 <= i <= 1 && -1 <= j <= 2) || (i == 2 && j == -1)
  }

  /** Direction (a, b) is handled before the loops reach (i, j). */
  predicate Before(a: int, b: int, i: int, j: int)
  {
    a < i || (a == i && b < j)
  }

  /** Sum of the flips of the directions handled before (i, j). */
  function FlipsBefore(g: Grid, x: int, y: int, c: Color, i: int, j: int): nat
    requires IsSquare(g) && OnBoard(|g|, x, y) && SweepPos(i, j)
    decreases 4 * (i + 1) + (j + 1)
  {
    if j > -1 then FlipsBefore(g, x, y, c, i, j - 1) + Flips(g, x, y, i, j - 1, c)
    else if i > -1 then FlipsBefore(g, x, y, c, i - 1, 2)
    else 0
  }

  /** Number of pieces a move at (x, y) by c turns over, over all eight rays. */
  function TotalFlips(g: Grid, x: int, y: int, c: Color): nat
    requires IsSquare(g) && OnBoard(|g|, x, y)
  {
    FlipsBefore(g, x, y, c, 2, -1)
  }

  /** A legal move: on the board, on an empty square, and capturing on some ray. */
  predicate Legal(g: Grid, x: int, y: int, c: Color)
    requires IsSquare(g)
  {
    OnBoard(|g|, x, y) && g[x][y] == Empty && TotalFlips(g, x, y, c) > 0
  }

  /** Square (p, q) is one of those a move at (x, y) by c turns over. */
  predicate Flipped(g: Grid, x: int, y: int, c: Color, p: int, q: int)
    requires IsSquare(g) && OnBoard(|g|, x, y)
  {
    OnRay(x, y, Sign(p - x), Sign(q - y), p, q)
    && Dist(x, y, p, q) <= Flips(g, x, y, Sign(p - x), Sign(q - y), c)
  }

  /** The board after a legal move, square by square: the target and every flipped square become c's. */
  function Apply(g: Grid, x: int, y: int, c: Color): (r: Grid)
    requires IsSquare(g) && OnBoard(|g|, x, y)
    ensures IsSquare(r) && |r| == |g|
  {
    seq(|g|, p requires 0 <= p < |g| =>
      seq(|g|, q requires 0 <= q < |g| =>
        if (p == x && q == y) || Flipped(g, x, y, c, p, q) then Piece(c) else g[p][q]))
  }

  /** Every flipped square held an opponent piece before the move. */
  lemma FlippedWasOpponent(g: Grid, x: int, y: int, c: Color, p: int, q: int)
    requires IsSquare(g) && OnBoard(|g|, x, y) && Flipped(g, x, y, c, p, q)
    ensures OnBoard(|g|, p, q) && g[p][q] == Piece(Opp(c))
  {
    var a, b := Sign(p - x), Sign(q - y);
    var s := Dist(x, y, p, q);
    StepIff(x, y, a, b, s, p, q);
    assert Bracketed(g, x, y, a, b, c, Flips(g, x, y, a, b, c));
  }

  /** Squares a move never touches: off its eight rays, or past the end of a captured run. */
  lemma ApplyLeavesOthers(g: Grid, x: int, y: int, c: Color, p: int, q: int)
    requires IsSquare(g) && OnBoard(|g|, x, y) && OnBoard(|g|, p, q) && (p, q) != (x, y)
    requires !Flipped(g, x, y, c, p, q)
    ensures Apply(g, x, y, c)[p][q] == g[p][q]
  {
  }

  /** Steps 1..m of ray (a, b) set to v, in increasing order (the Java flip loop). */
  function Paint(h: Grid, x: int, y: int, a: int, b: int, v: Cell, m: nat): (r: Grid)
    requires IsSquare(h) && IsDir(a, b)
    requires forall s :: 1 <= s <= m ==> OnBoard(|h|, Along(x, a, s), Along(y, b, s))
    ensures IsSquare(r) && |r| == |h|
    decreases m
  {
    if m == 0 then h
    else
      assert OnBoard(|h|, Along(x, a, m), Along(y, b, m));
      SetCell(Paint(h, x, y, a, b, v, m - 1), Along(x, a, m), Along(y, b, m), v)
  }

  /** One pass of the direction loop: scan ray (a, b) of h and, if it captures, flip it and take (x, y). */
  function FlipRay(h: Grid, x: int, y: int, a: int, b: int, c: Color): (r: Grid)
    requires IsSquare(h) && OnBoard(|h|, x, y) && IsDir(a, b)
    ensures IsSquare(r) && |r| == |h|
  {
    var m := Flips(h, x, y, a, b, c);
    if m > 0 then SetCell(Paint(h, x, y, a, b, Piece(c), m), x, y, Piece(c)) else h
  }

  /** The board once the direction loops have handled every direction before (i, j). */
  function Swept(g: Grid, x: int, y: int, c: Color, i: int, j: int): (r: Grid)
    requires IsSquare(g) && OnBoard(|g|, x, y) && SweepPos(i, j)
    ensures IsSquare(r) && |r| == |g|
    decreases 4 * (i + 1) + (j + 1)
  {
    if j > -1 then FlipRay(Swept(g, x, y, c, i, j - 1), x, y, i, j - 1, c)
    else if i > -1 then Swept(g, x, y, c, i - 1, 2)
    else g
  }

  lemma {:induction false} PaintCells(h: Grid, x: int, y: int, a: int, b: int, v: Cell, m: nat)
    requires IsSquare(h) && IsDir(a, b) && (a, b) != (0, 0)
    requires forall s :: 1 <= s <= m ==> OnBoard(|h|, Along(x, a, s), Along(y, b, s))
    ensures forall p, q :: OnBoard(|h|, p, q) ==>
      Paint(h, x, y, a, b, v, m)[p][q] == if OnRay(x, y, a, b, p, q) && Dist(x, y, p, q) <= m then v else h[p][q]
  {
    if m > 0 {
      PaintCells(h, x, y, a, b, v, m - 1);
      forall p, q | OnBoard(|h|, p, q)
        ensures Paint(h, x, y, a, b, v, m)[p][q] == if OnRay(x, y, a, b, p, q) && Dist(x, y, p, q) <= m then v else h[p][q]
      {
        StepIff(x, y, a, b, m, p, q);
      }
    }
  }

  lemma {:induction false} PaintCount(h: Grid, x: int, y: int, a: int, b: int, c: Color, m: nat)
    requires IsSquare(h) && IsDir(a, b) && (a, b) != (0, 0)
    requires forall s :: 1 <= s <= m ==>
      OnBoard(|h|, Along(x, a, s), Along(y, b, s)) && h[Along(x, a, s)][Along(y, b, s)] == Piece(Opp(c))
    ensures Count(Paint(h, x, y, a, b, Piece(c), m), Piece(c)) == Count(h, Piece(c)) + m
    ensures Count(Paint(h, x, y, a, b, Piece(c), m), Piece(Opp(c))) == Count(h, Piece(Opp(c))) - m
    ensures Count(Paint(h, x, y, a, b, Piece(c), m), Empty) == Count(h, Empty)
  {
    hide RowCount, Run, Flips, Swept, Apply;
    if m > 0 {
      PaintCount(h, x, y, a, b, c, m - 1);
      var p, q := Along(x, a, m), Along(y, b, m);
      PaintCells(h, x, y, a, b, Piece(c), m - 1);
      StepIff(x, y, a, b, m, p, q);
      var prev := Paint(h, x, y, a, b, Piece(c), m - 1);
      assert prev[p][q] == Piece(Opp(c));
      CountSetCell(prev, p, q, Piece(c), Piece(c));
      CountSetCell(prev, p, q, Piece(c), Piece(Opp(c)));
      CountSetCell(prev, p, q, Piece(c), Empty);
    }
  }

  lemma {:induction false} RunReadsRay(g: Grid, h: Grid, x: int, y: int, a: int, b: int, o: Cell, k: nat)
    requires IsSquare(g) && IsSquare(h) && |g| == |h| && OnBoard(|g|, x, y)
    requires IsDir(a, b) && (a, b) != (0, 0) && k >= 1
    requires forall p, q :: OnBoard(|g|, p, q) && OnRay(x, y, a, b, p, q) ==> h[p][q] == g[p][q]
    ensures Run(h, x, y, a, b, o, k) == Run(g, x, y, a, b, o, k)
    decreases |g| - k
  {
    var p, q := Along(x, a, k), Along(y, b, k);
    StepIff(x, y, a, b, k, p, q);
    if OnBoard(|g|, p, q) {
      RunReadsRay(g, h, x, y, a, b, o, k + 1);
    }
  }

  /** Flips reads only the squares of its own ray. */
  lemma FlipsReadsRay(g: Grid, h: Grid, x: int, y: int, a: int, b: int, c: Color)
    requires IsSquare(g) && IsSquare(h) && |g| == |h| && OnBoard(|g|, x, y) && IsDir(a, b)
    requires forall p, q :: OnBoard(|g|, p, q) && OnRay(x, y, a, b, p, q) ==> h[p][q] == g[p][q]
    ensures Flips(h, x, y, a, b, c) == Flips(g, x, y, a, b, c)
  {
    if (a, b) != (0, 0) {
      RunReadsRay(g, h, x, y, a, b, Piece(Opp(c)), 1);
      var m := Run(g, x, y, a, b, Piece(Opp(c)), 1);
      StepIff(x, y, a, b, m + 1, Along(x, a, m + 1), Along(y, b, m + 1));
    }
  }

  /** One pass of the direction loop changes only ray (a, b) and the target. */
  lemma FlipRayCells(h: Grid, x: int, y: int, a: int, b: int, c: Color)
    requires IsSquare(h) && OnBoard(|h|, x, y) && IsDir(a, b)
    ensures forall p, q :: OnBoard(|h|, p, q) && (p, q) != (x, y) ==>
      FlipRay(h, x, y, a, b, c)[p][q]
        == if OnRay(x, y, a, b, p, q) && Dist(x, y, p, q) <= Flips(h, x, y, a, b, c) then Piece(c) else h[p][q]
    ensures FlipRay(h, x, y, a, b, c)[x][y] == if Flips(h, x, y, a, b, c) > 0 then Piece(c) else h[x][y]
  {
    var m := Flips(h, x, y, a, b, c);
    if m > 0 {
      PaintCells(h, x, y, a, b, Piece(c), m);
    } else {
      forall p, q | OnBoard(|h|, p, q) && (p, q) != (x, y)
        ensures !(OnRay(x, y, a, b, p, q) && Dist(x, y, p, q) <= m)
      {
      }
    }
  }

  /**
   * A square other than the target, once the loops have handled the directions
   * before (i, j): flipped exactly when it is flipped by one of those directions.
   */
  lemma {:induction false} SweptCell(g: Grid, x: int, y: int, c: Color, i: int, j: int, p: int, q: int)
    requires IsSquare(g) && OnBoard(|g|, x, y) && SweepPos(i, j)
    requires OnBoard(|g|, p, q) && (p, q) != (x, y)
    ensures Swept(g, x, y, c, i, j)[p][q]
      == if Flipped(g, x, y, c, p, q) && Before(Sign(p - x), Sign(q - y), i, j) then Piece(c) else g[p][q]
    decreases 4 * (i + 1) + (j + 1), 2
  {
    if j > -1 {
      SweptCellStep(g, x, y, c, i, j, p, q);
    } else if i > -1 {
      SweptCell(g, x, y, c, i - 1, 2, p, q);
    }
  }

  lemma {:induction false} SweptCellStep(g: Grid, x: int, y: int, c: Color, i: int, j: int, p: int, q: int)
    requires IsSquare(g) && OnBoard(|g|, x, y) && SweepPos(i, j) && j > -1
    requires OnBoard(|g|, p, q) && (p, q) != (x, y)
    ensures Swept(g, x, y, c, i, j)[p][q]
      == if Flipped(g, x, y, c, p, q) && Before(Sign(p - x), Sign(q - y), i, j) then Piece(c) else g[p][q]
    decreases 4 * (i + 1) + (j + 1), 1
  {
    hide Paint, Run, Apply, Legal, Bracketed, Count, RowCount;
    var h := Swept(g, x, y, c, i, j - 1);
    assert Swept(g, x, y, c, i, j) == FlipRay(h, x, y, i, j - 1, c);
    hide Swept;
    SweptCell(g, x, y, c, i, j - 1, p, q);
    SweptKeepsRay(g, x, y, c, i, j - 1);
    FlipsReadsRay(g, h, x, y, i, j - 1, c);
    FlipRayCells(h, x, y, i, j - 1, c);
    hide FlipRay;
    var on := OnRay(x, y, i, j - 1, p, q) && Dist(x, y, p, q) <= Flips(g, x, y, i, j - 1, c);
    assert Swept(g, x, y, c, i, j)[p][q] == if on then Piece(c) else h[p][q];
    var a, b := Sign(p - x), Sign(q - y);
    if (a, b) == (i, j - 1) {
      assert on == Flipped(g, x, y, c, p, q);
      assert Before(a, b, i, j) && !Before(a, b, i, j - 1);
    } else {
      assert !on;
      assert Before(a, b, i, j) == Before(a, b, i, j - 1);
    }
  }

  /** The ray the loops are about to scan is still as it was before the move. */
  lemma SweptKeepsRay(g: Grid, x: int, y: int, c: Color, i: int, j: int)
    requires IsSquare(g) && OnBoard(|g|, x, y) && SweepPos(i, j) && IsDir(i, j)
    decreases 4 * (i + 1) + (j + 1), 3
    ensures forall p, q :: OnBoard(|g|, p, q) && OnRay(x, y, i, j, p, q) ==> Swept(g, x, y, c, i, j)[p][q] == g[p][q]
  {
    forall p, q | OnBoard(|g|, p, q) && OnRay(x, y, i, j, p, q)
      ensures Swept(g, x, y, c, i, j)[p][q] == g[p][q]
    {
      SweptCell(g, x, y, c, i, j, p, q);
    }
  }

  /** The target square, once the loops have handled the directions before (i, j). */
  lemma {:induction false} SweptTarget(g: Grid, x: int, y: int, c: Color, i: int, j: int)
    requires IsSquare(g) && OnBoard(|g|, x, y) && g[x][y] == Empty && SweepPos(i, j)
    ensures Swept(g, x, y, c, i, j)[x][y] == if FlipsBefore(g, x, y, c, i, j) > 0 then Piece(c) else Empty
    decreases 4 * (i + 1) + (j + 1)
  {
    hide Paint, Run, Count, RowCount, Apply, Legal, Bracketed;
    if j > -1 {
      SweptTarget(g, x, y, c, i, j - 1);
      var h := Swept(g, x, y, c, i, j - 1);
      SweptKeepsRay(g, x, y, c, i, j - 1);
      FlipsReadsRay(g, h, x, y, i, j - 1, c);
      FlipRayCells(h, x, y, i, j - 1, c);
    } else if i > -1 {
      SweptTarget(g, x, y, c, i - 1, 2);
    }
  }

  /** A direction already handled contributes its flips to the running sum. */
  lemma {:induction false} FlipsBeforeIncludes(g: Grid, x: int, y: int, c: Color, a: int, b: int, i: int, j: int)
    requires IsSquare(g) && OnBoard(|g|, x, y) && SweepPos(i, j) && IsDir(a, b) && Before(a, b, i, j)
    ensures Flips(g, x, y, a, b, c) <= FlipsBefore(g, x, y, c, i, j)
    decreases 4 * (i + 1) + (j + 1)
  {
    if j > -1 {
      if (a, b) != (i, j - 1) {
        FlipsBeforeIncludes(g, x, y, c, a, b, i, j - 1);
      }
    } else if i > -1 {
      FlipsBeforeIncludes(g, x, y, c, a, b, i - 1, 2);
    }
  }

  /** Sequential flipping in loop order equals the simultaneous description, for a legal move. */
  lemma SweptIsApply(g: Grid, x: int, y: int, c: Color)
    requires IsSquare(g) && Legal(g, x, y, c)
    ensures Swept(g, x, y, c, 2, -1) == Apply(g, x, y, c)
  {
    SweptTarget(g, x, y, c, 2, -1);
    var s, r := Swept(g, x, y, c, 2, -1), Apply(g, x, y, c);
    forall p | 0 <= p < |g|
      ensures s[p] == r[p]
    {
      forall q | 0 <= q < |g|
        ensures s[p][q] == r[p][q]
      {
        if (p, q) != (x, y) {
          SweptCell(g, x, y, c, 2, -1, p, q);
        }
      }
    }
  }

  /** When no ray captures, the loops leave the board as it was. */
  lemma SweptWithoutCapture(g: Grid, x: int, y: int, c: Color)
    requires IsSquare(g) && OnBoard(|g|, x, y) && g[x][y] == Empty && TotalFlips(g, x, y, c) == 0
    ensures Swept(g, x, y, c, 2, -1) == g
  {
    SweptTarget(g, x, y, c, 2, -1);
    var s := Swept(g, x, y, c, 2, -1);
    forall p | 0 <= p < |g|
      ensures s[p] == g[p]
    {
      forall q | 0 <= q < |g|
        ensures s[p][q] == g[p][q]
      {
        if (p, q) != (x, y) {
          SweptCell(g, x, y, c, 2, -1, p, q);
          if Flipped(g, x, y, c, p, q) {
            FlipsBeforeIncludes(g, x, y, c, Sign(p - x), Sign(q - y), 2, -1);
          }
        }
      }
    }
  }

  /** Piece counts across one pass of the direction loop, the target not yet the opponent's. */
  lemma FlipRayCounts(h: Grid, x: int, y: int, a: int, b: int, c: Color)
    requires IsSquare(h) && OnBoard(|h|, x, y) && IsDir(a, b) && h[x][y] != Piece(Opp(c))
    ensures var m, r := Flips(h, x, y, a, b, c), FlipRay(h, x, y, a, b, c);
      var took := if m > 0 && h[x][y] == Empty then 1 else 0;
      && Count(r, Piece(c)) == Count(h, Piece(c)) + m + took
      && Count(r, Piece(Opp(c))) == Count(h, Piece(Opp(c))) - m
      && Count(r, Empty) == Count(h, Empty) - took
  {
    var m := Flips(h, x, y, a, b, c);
    if m > 0 {
      assert Bracketed(h, x, y, a, b, c, m);
      PaintCount(h, x, y, a, b, c, m);
      PaintCells(h, x, y, a, b, Piece(c), m);
      var painted := Paint(h, x, y, a, b, Piece(c), m);
      assert painted[x][y] == h[x][y];
      assert FlipRay(h, x, y, a, b, c) == SetCell(painted, x, y, Piece(c));
      var me, opp := Piece(c), Piece(Opp(c));
      CountSetCell(painted, x, y, me, me);
      CountSetCell(painted, x, y, me, opp);
      CountSetCell(painted, x, y, me, Empty);
      assert Count(painted, me) == Count(h, me) + m;
      assert Count(painted, opp) == Count(h, opp) - m;
      assert Count(painted, Empty) == Count(h, Empty);
    }
  }

  /** The ray the loops are about to scan yields the flips it yields on the original board. */
  lemma SweptScansOriginal(g: Grid, x: int, y: int, c: Color, i: int, j: int)
    requires IsSquare(g) && OnBoard(|g|, x, y) && SweepPos(i, j) && IsDir(i, j)
    ensures Flips(Swept(g, x, y, c, i, j), x, y, i, j, c) == Flips(g, x, y, i, j, c)
  {
    SweptKeepsRay(g, x, y, c, i, j);
    FlipsReadsRay(g, Swept(g, x, y, c, i, j), x, y, i, j, c);
  }

  /** On an empty square, the sweep is the move when it captures and leaves the board alone otherwise. */
  lemma SweepOutcome(g: Grid, x: int, y: int, c: Color)
    requires IsSquare(g) && OnBoard(|g|, x, y) && g[x][y] == Empty
    ensures Legal(g, x, y, c) == (TotalFlips(g, x, y, c) > 0)
    ensures Swept(g, x, y, c, 2, -1) == if Legal(g, x, y, c) then Apply(g, x, y, c) else g
  {
    if TotalFlips(g, x, y, c) > 0 {
      SweptIsApply(g, x, y, c);
    } else {
      SweptWithoutCapture(g, x, y, c);
    }
  }

  /** s is g after captures totalling f pieces (none when f == 0), the target taken with the first. */
  predicate Tallied(g: Grid, s: Grid, c: Color, f: nat)
  {
    && Count(s, Piece(c)) == Count(g, Piece(c)) + f + (if f > 0 then 1 else 0)
    && Count(s, Piece(Opp(c))) == Count(g, Piece(Opp(c))) - f
    && Count(s, Empty) == Count(g, Empty) - (if f > 0 then 1 else 0)
  }

  /** One pass of the direction loop keeps the running tally, its flips added. */
  lemma TalliedStep(g: Grid, h: Grid, x: int, y: int, a: int, b: int, c: Color, f: nat)
    requires IsSquare(h) && OnBoard(|h|, x, y) && IsDir(a, b)
    requires Tallied(g, h, c, f) && h[x][y] == (if f > 0 then Piece(c) else Empty)
    ensures Tallied(g, FlipRay(h, x, y, a, b, c), c, f + Flips(h, x, y, a, b, c))
  {
    hide Count, RowCount, FlipRay, Flips;
    FlipRayCounts(h, x, y, a, b, c);
  }

  /** Piece counts while the loops run: each capture adds its flips, the first one also the target. */
  lemma {:induction false} SweptCounts(g: Grid, x: int, y: int, c: Color, i: int, j: int)
    requires IsSquare(g) && OnBoard(|g|, x, y) && g[x][y] == Empty && SweepPos(i, j)
    ensures Tallied(g, Swept(g, x, y, c, i, j), c, FlipsBefore(g, x, y, c, i, j))
    decreases 4 * (i + 1) + (j + 1)
  {
    hide Paint, Run, Apply, Legal, Flipped, Bracketed, Count, RowCount, Flips, FlipRay;
    if j > -1 {
      SweptCounts(g, x, y, c, i, j - 1);
      SweptTarget(g, x, y, c, i, j - 1);
      var h := Swept(g, x, y, c, i, j - 1);
      SweptScansOriginal(g, x, y, c, i, j - 1);
      TalliedStep(g, h, x, y, i, j - 1, c, FlipsBefore(g, x, y, c, i, j - 1));
    } else if i > -1 {
      SweptCounts(g, x, y, c, i - 1, 2);
    }
  }

  /**
   * A legal move empties one square fewer, adds 1 + TotalFlips pieces to the mover's
   * count and takes TotalFlips from the opponent's.
   */
  lemma MoveCounts(g: Grid, x: int, y: int, c: Color)
    requires IsSquare(g) && Legal(g, x, y, c)
    ensures Count(Apply(g, x, y, c), Empty) == Count(g, Empty) - 1
    ensures Count(Apply(g, x, y, c), Piece(c)) == Count(g, Piece(c)) + 1 + TotalFlips(g, x, y, c)
    ensures Count(Apply(g, x, y, c), Piece(Opp(c))) == Count(g, Piece(Opp(c))) - TotalFlips(g, x, y, c)
  {
    SweptCounts(g, x, y, c, 2, -1);
    SweptIsApply(g, x, y, c);
  }
}
