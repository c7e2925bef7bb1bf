// Squares, players and whole-board values of the Reversi engine, with the
// piece counts that the engine reports.

module Cells {

  /** One square of the board. The Java engine stores ' ' (32), 'x' or 'o'. */
  datatype Cell = Empty | X | O

  /** The two players. 'x' is Black; every other player character is White. */
  datatype Color = Black | White

  /** The other player. */
  function Opp(c: Color): Color
  {
    if c == Black then White else Black
  }

  /** The piece a player puts on the board. */
  function Piece(c: Color): Cell
  {
    if c == Black then X else O
  }

  /** A board value, indexed g[x][y] like the Java `board[x][y]`. */
  type Grid = seq<seq<Cell>>

  /** A snapshot of a board object: its cells and the player recorded as to move. */
  datatype Node = Node(grid: Grid, turn: Color)

  /** Every column of `g` is as long as `g` itself: an n-by-n board. */
  predicate IsSquare(g: Grid)
  {
    forall i :: 0 <= i < |g| ==> |g[i]| == |g|
  }

  predicate OnBoard(n: int, p: int, q: int)
  {
    0 <= p < n && 0 <= q < n
  }

  /** `g` with the one square (p, q) replaced by `v`. */
  function SetCell(g: Grid, p: int, q: int, v: Cell): (r: Grid)
    requires 0 <= p < |g| && 0 <= q < |g[p]|
    ensures |r| == |g| && (forall i :: 0 <= i < |g| ==> |r[i]| == |g[i]|)
  {
    g[p := g[p][q := v]]
  }

  /** Number of squares of `row` that hold `v`, counted front to back. */
  function RowCount(row: seq<Cell>, v: Cell): nat
  {
    if row == [] then 0
    else RowCount(row[..|row| - 1], v) + (if row[|row| - 1] == v then 1 else 0)
  }

  /** Number of squares of `g` that hold `v`, in the order the Java loops visit them. */
  function Count(g: Grid, v: Cell): nat
  {
    if g == [] then 0
    else Count(g[..|g| - 1], v) + RowCount(g[|g| - 1], v)
  }

  lemma {:induction false} RowCountBound(row: seq<Cell>, v: Cell)
    ensures RowCount(row, v) <= |row|
  {
    if row != [] {
      RowCountBound(row[..|row| - 1], v);
    }
  }

  lemma {:induction false} RowCountPartition(row: seq<Cell>)
    ensures RowCount(row, Empty) + RowCount(row, X) + RowCount(row, O) == |row|
  {
    if row != [] {
      RowCountPartition(row[..|row| - 1]);
    }
  }

  lemma {:induction false} RowCountUpdate(row: seq<Cell>, q: int, v: Cell, w: Cell)
    requires 0 <= q < |row|
    ensures RowCount(row[q := v], w)
         == RowCount(row, w) - (if row[q] == w then 1 else 0) + (if v == w then 1 else 0)
  {
    var r := row[q := v];
    var last := |row| - 1;
    if q == last {
      assert r[..last] == row[..last];
    } else {
      assert r[..last] == row[..last][q := v];
      RowCountUpdate(row[..last], q, v, w);
    }
  }

  lemma {:induction false} RowCountFill(row: seq<Cell>, v: Cell)
    requires forall j :: 0 <= j < |row| ==> row[j] == v
    ensures RowCount(row, v) == |row|
    ensures forall w :: w != v ==> RowCount(row, w) == 0
  {
    if row != [] {
      RowCountFill(row[..|row| - 1], v);
    }
  }

  /** A count never exceeds the number of squares. */
  lemma {:induction false} CountBound(g: Grid, v: Cell)
    requires IsSquare(g)
    ensures Count(g, v) <= |g| * |g|
  {
    CountPrefixBound(g, |g|, |g|, v);
    assert g[..|g|] == g;
  }

  lemma {:induction false} CountPrefixBound(g: Grid, k: nat, n: nat, v: Cell)
    requires k <= |g| && forall i :: 0 <= i < |g| ==> |g[i]| == n
    ensures Count(g[..k], v) <= k * n
  {
    if k > 0 {
      assert g[..k][..k - 1] == g[..k - 1];
      CountPrefixBound(g, k - 1, n, v);
      RowCountBound(g[k - 1], v);
      assert (k - 1) * n + n == k * n;
    } else {
      assert g[..k] == [];
    }
  }

  /** Every square holds exactly one of the three values. */
  lemma {:induction false} CountPartition(g: Grid)
    requires IsSquare(g)
    ensures Count(g, Empty) + Count(g, X) + Count(g, O) == |g| * |g|
  {
    CountPrefixPartition(g, |g|, |g|);
    assert g[..|g|] == g;
  }

  lemma {:induction false} CountPrefixPartition(g: Grid, k: nat, n: nat)
    requires k <= |g| && forall i :: 0 <= i < |g| ==> |g[i]| == n
    ensures Count(g[..k], Empty) + Count(g[..k], X) + Count(g[..k], O) == k * n
  {
    if k > 0 {
      assert g[..k][..k - 1] == g[..k - 1];
      CountPrefixPartition(g, k - 1, n);
      RowCountPartition(g[k - 1]);
      assert (k - 1) * n + n == k * n;
    } else {
      assert g[..k] == [];
    }
  }

  /** Overwriting one square moves that square from its old value's count to the new one's. */
  lemma {:induction false} CountSetCell(g: Grid, p: int, q: int, v: Cell, w: Cell)
    requires 0 <= p < |g| && 0 <= q < |g[p]|
    ensures Count(SetCell(g, p, q, v), w)
         == Count(g, w) - (if g[p][q] == w then 1 else 0) + (if v == w then 1 else 0)
  {
    var r := SetCell(g, p, q, v);
    var last := |g| - 1;
    if p == last {
      assert r[..last] == g[..last];
      RowCountUpdate(g[p], q, v, w);
    } else {
      assert r[..last] == SetCell(g[..last], p, q, v);
      CountSetCell(g[..last], p, q, v, w);
    }
  }

  /** A board whose squares all hold `v` has n*n of them and none of anything else. */
  lemma {:induction false} CountFill(g: Grid, v: Cell)
    requires IsSquare(g)
    requires forall i, j :: 0 <= i < |g| && 0 <= j < |g| ==> g[i][j] == v
    ensures Count(g, v) == |g| * |g|
    ensures forall w :: w != v ==> Count(g, w) == 0
  {
    CountPrefixFill(g, |g|, |g|, v);
    assert g[..|g|] == g;
  }

  lemma {:induction false} CountPrefixFill(g: Grid, k: nat, n: nat, v: Cell)
    requires k <= |g| && forall i :: 0 <= i < |g| ==> |g[i]| == n
    requires forall i, j :: 0 <= i < |g| && 0 <= j < n ==> g[i][j] == v
    ensures Count(g[..k], v) == k * n
    ensures forall w :: w != v ==> Count(g[..k], w) == 0
  {
    hide RowCount;
    if k > 0 {
      assert g[..k][..k - 1] == g[..k - 1];
      CountPrefixFill(g, k - 1, n, v);
      RowCountFill(g[k - 1], v);
      assert (k - 1) * n + n == k * n;
    } else {
      assert g[..k] == [];
    }
  }
}
