// The starting position laid out by ReversiBoard.initBoard.

module Layout {
  import opened Cells

  /** An n-by-n board of empty squares. */
  function Blank(n: nat): (g: Grid)
    ensures IsSquare(g) && |g| == n
    ensures forall p, q :: 0 <= p < n && 0 <= q < n ==> g[p][q] == Empty
  {
    seq(n, _ => seq(n, _ => Empty))
  }

  /**
   * The start of a game of size n, written as initBoard writes it: every square
   * blank, then with m = n / 2 an 'x' at (m-1, m), an 'o' at (m-1, m-1), an 'o'
   * at (m, m) and an 'x' at (m, m-1).
   */
  function InitialGrid(n: nat): (g: Grid)
    requires n >= 2
    ensures IsSquare(g) && |g| == n
  {
    var m := n / 2;
    var g1 := SetCell(Blank(n), m - 1, m, X);
    var g2 := SetCell(g1, m - 1, m - 1, O);
    var g3 := SetCell(g2, m, m, O);
    SetCell(g3, m, m - 1, X)
  }

  /** The four centre squares hold the starting pieces and every other square is blank. */
  lemma InitialCells(n: nat, p: int, q: int)
    requires n >= 2 && OnBoard(n, p, q)
    ensures var m := n / 2;
      InitialGrid(n)[p][q]
        == if (p, q) == (m - 1, m) || (p, q) == (m, m - 1) then X
           else if (p, q) == (m - 1, m - 1) || (p, q) == (m, m) then O
           else Empty
  {
  }

  /** Each player starts with two pieces and the other n*n - 4 squares are blank. */
  lemma InitialCounts(n: nat)
    requires n >= 2
    ensures Count(InitialGrid(n), X) == 2
    ensures Count(InitialGrid(n), O) == 2
    ensures Count(InitialGrid(n), Empty) == n * n - 4
  {
    hide Count, RowCount;
    var m := n / 2;
    var g0 := Blank(n);
    var g1 := SetCell(g0, m - 1, m, X);
    var g2 := SetCell(g1, m - 1, m - 1, O);
    var g3 := SetCell(g2, m, m, O);
    CountFill(g0, Empty);
    PlaceOnBlank(g0, m - 1, m, X);
    assert g1[m - 1][m - 1] == Empty;
    PlaceOnBlank(g1, m - 1, m - 1, O);
    assert g2[m][m] == Empty;
    PlaceOnBlank(g2, m, m, O);
    assert g3[m][m - 1] == Empty;
    PlaceOnBlank(g3, m, m - 1, X);
  }

  /** Putting a piece on a blank square adds one to its count and takes one from the blanks. */
  lemma PlaceOnBlank(g: Grid, p: int, q: int, v: Cell)
    requires 0 <= p < |g| && 0 <= q < |g[p]| && g[p][q] == Empty && v != Empty
    ensures Count(SetCell(g, p, q, v), Empty) == Count(g, Empty) - 1
    ensures Count(SetCell(g, p, q, v), v) == Count(g, v) + 1
    ensures forall w :: w != Empty && w != v ==> Count(SetCell(g, p, q, v), w) == Count(g, w)
  {
    CountSetCell(g, p, q, v, Empty);
    CountSetCell(g, p, q, v, v);
    forall w | w != Empty && w != v
      ensures Count(SetCell(g, p, q, v), w) == Count(g, w)
    {
      CountSetCell(g, p, q, v, w);
    }
  }
}
