// The ReversiBoard class: an N-by-N board array updated in place, the player
// to move, and the best move the last search found.

module Reversi {
  import opened Cells
  import opened Capture
  import opened Layout
  import opened Enumeration
  import opened Evaluation
  import opened Pruning
  import opened Search

  /** The value held by a board array, indexed [x][y] like the array. */
  ghost function Contents(a: array2<Cell>): (g: Grid)
    reads a
    ensures |g| == a.Length0 && forall i :: 0 <= i < |g| ==> |g[i]| == a.Length1
  {
    seq(a.Length0, i requires 0 <= i < a.Length0 reads a =>
      seq(a.Length1, j requires 0 <= j < a.Length1 reads a => a[i, j]))
  }

  /** Two boards of the same shape that agree square by square are equal. */
  lemma SameGrid(g: Grid, h: Grid)
    requires |g| == |h| && forall i :: 0 <= i < |g| ==> |g[i]| == |h[i]|
    requires forall i, j :: 0 <= i < |g| && 0 <= j < |g[i]| ==> g[i][j] == h[i][j]
    ensures g == h
  {
    forall i | 0 <= i < |g|
      ensures g[i] == h[i]
    {
    }
  }

  /** An array that differs from `prev` only at (p, q), where it holds v, holds SetCell(prev, p, q, v). */
  lemma ContentsAfterWrite(a: array2<Cell>, prev: Grid, p: int, q: int, v: Cell)
    requires |prev| == a.Length0 && forall i :: 0 <= i < |prev| ==> |prev[i]| == a.Length1
    requires 0 <= p < a.Length0 && 0 <= q < a.Length1
    requires forall i, j :: 0 <= i < a.Length0 && 0 <= j < a.Length1 ==>
      a[i, j] == if (i, j) == (p, q) then v else prev[i][j]
    ensures Contents(a) == SetCell(prev, p, q, v)
  {
    SameGrid(Contents(a), SetCell(prev, p, q, v));
  }

  class ReversiBoard {
    var gameSize: int
    var playerTurn: Color
    var board: array2<Cell>
    var bestMove: ReversiBoard?

    /** The board array is gameSize by gameSize. */
    ghost predicate Valid()
      reads this`board, this`gameSize
    {
      board.Length0 == gameSize && board.Length1 == gameSize
    }

    ghost function Grid(): (g: Grid)
      reads this`board, board
      ensures |g| == board.Length0 && (board.Length0 == board.Length1 ==> IsSquare(g))
    {
      Contents(board)
    }

    /** The position this object stands for: its squares and the player recorded as to move. */
    ghost function Snapshot(): Node
      reads this`board, this`playerTurn, board
    {
      Node(Grid(), playerTurn)
    }

    /** A new game: the starting layout, Black ('x') to move, no best move yet. */
    constructor(gameSize: int)
      requires gameSize >= 2
      ensures Valid() && this.gameSize == gameSize && fresh(board)
      ensures Snapshot() == Node(InitialGrid(gameSize), Black) && bestMove == null
    {
      this.gameSize := gameSize;
      board := new Cell[gameSize, gameSize];
      playerTurn := Black;
      bestMove := null;
      new;
      InitBoard();
    }

    /** A board object around an existing array, which it shares rather than copies. */
    constructor FromState(gameSize: int, board: array2<Cell>, playerChar: Color)
      ensures this.gameSize == gameSize && this.board == board && playerTurn == playerChar && bestMove == null
    {
      this.gameSize := gameSize;
      this.board := board;
      playerTurn := playerChar;
      bestMove := null;
    }

    /** Blanks every square, then places the four starting pieces. */
    method InitBoard()
      requires Valid() && gameSize >= 2
      modifies board
      ensures Grid() == InitialGrid(gameSize)
    {
      for i := 0 to board.Length0
        invariant forall p, q :: 0 <= p < i && 0 <= q < board.Length1 ==> board[p, q] == Empty
      {
        for j := 0 to board.Length1
          invariant forall p, q :: 0 <= p < i && 0 <= q < board.Length1 ==> board[p, q] == Empty
          invariant forall q :: 0 <= q < j ==> board[i, q] == Empty
        {
          board[i, j] := Empty;
        }
      }
      var rightMidLength := gameSize / 2;
      var leftMidLength := gameSize / 2 - 1;
      var topMidWidth := gameSize / 2 - 1;
      var bottomMidWidth := gameSize / 2;
      board[leftMidLength, bottomMidWidth] := X;
      board[leftMidLength, topMidWidth] := O;
      board[rightMidLength, bottomMidWidth] := O;
      board[rightMidLength, topMidWidth] := X;
      forall p, q | 0 <= p < gameSize && 0 <= q < gameSize
        ensures Grid()[p][q] == InitialGrid(gameSize)[p][q]
      {
        InitialCells(gameSize, p, q);
      }
      SameGrid(Grid(), InitialGrid(gameSize));
    }

    /** A fresh size-by-size array holding the same squares as `currentBoard`. */
    static method CopyGameState(size: int, currentBoard: array2<Cell>) returns (copiedBoard: array2<Cell>)
      requires currentBoard.Length0 == size && currentBoard.Length1 == size
      ensures fresh(copiedBoard) && copiedBoard.Length0 == size && copiedBoard.Length1 == size
      ensures Contents(copiedBoard) == Contents(currentBoard)
    {
      copiedBoard := new Cell[size, size];
      for i := 0 to currentBoard.Length0
        invariant forall p, q :: 0 <= p < i && 0 <= q < size ==> copiedBoard[p, q] == currentBoard[p, q]
      {
        for j := 0 to currentBoard.Length1
          invariant forall p, q :: 0 <= p < i && 0 <= q < size ==> copiedBoard[p, q] == currentBoard[p, q]
          invariant forall q :: 0 <= q < j ==> copiedBoard[i, q] == currentBoard[i, q]
        {
          copiedBoard[i, j] := currentBoard[i, j];
        }
      }
      SameGrid(Contents(copiedBoard), Contents(currentBoard));
    }

    /** The number of squares holding c's piece, counted column by column. */
    method GetValue(c: Color) returns (val: int)
      ensures val == Count(Grid(), Piece(c))
    {
      ghost var g := Grid();
      val := 0;
      for i := 0 to board.Length0
        invariant val == Count(g[..i], Piece(c))
      {
        for j := 0 to board.Length1
          invariant val == Count(g[..i], Piece(c)) + RowCount(g[i][..j], Piece(c))
        {
          assert g[i][..j + 1] == g[i][..j] + [board[i, j]];
          assert g[i][..j + 1][..j] == g[i][..j];
          if board[i, j] == Piece(c) {
            val := val + 1;
          }
        }
        assert g[i][..board.Length1] == g[i];
        assert g[..i + 1][..i] == g[..i];
      }
      assert g[..board.Length0] == g;
    }

    /** Black's pieces minus White's. */
    method ValueDiffBlack() returns (d: int)
      ensures d == Diff(Grid(), Black)
    {
      var b := GetValue(Black);
      var w := GetValue(White);
      d := b - w;
    }

    /** White's pieces minus Black's. */
    method ValueDiffWhite() returns (d: int)
      ensures d == Diff(Grid(), White)
    {
      var w := GetValue(White);
      var b := GetValue(Black);
      d := w - b;
    }

    /** reversiHeuristic: the piece difference for c, plus gameSize per net corner when c holds a corner. */
    method ReversiHeuristic(c: Color) returns (h: int)
      requires Valid() && gameSize >= 1
      ensures h == Heuristic(Grid(), c)
    {
      var me, other := Piece(c), Piece(Opp(c));
      var n := gameSize;
      ghost var g := Grid();
      ghost var k := Corners(g);
      assert k == [board[0, 0], board[n - 1, n - 1], board[n - 1, 0], board[0, n - 1]];
      hide Count, RowCount, Diff, Contents, Corners;
      var val := 0;
      if board[0, 0] == me || board[n - 1, n - 1] == me || board[n - 1, 0] == me || board[0, n - 1] == me {
        if board[0, 0] == me {
          val := val + 1;
        } else if board[0, 0] == other {
          val := val - 1;
        }
        assert val == CornerScore(k[0], c);
        if board[n - 1, n - 1] == me {
          val := val + 1;
        } else if board[n - 1, n - 1] == other {
          val := val - 1;
        }
        assert val == CornerScore(k[0], c) + CornerScore(k[1], c);
        if board[n - 1, 0] == me {
          val := val + 1;
        } else if board[n - 1, 0] == other {
          val := val - 1;
        }
        assert val == CornerScore(k[0], c) + CornerScore(k[1], c) + CornerScore(k[2], c);
        if board[0, n - 1] == me {
          val := val + 1;
        } else if board[0, n - 1] == other {
          val := val - 1;
        }
        assert val == CornerTally(g, c);
        var d;
        if c == Black {
          d := ValueDiffBlack();
        } else {
          d := ValueDiffWhite();
        }
        h := d + val * gameSize;
      } else {
        assert !HoldsCorner(g, c);
        if c == Black {
          h := ValueDiffBlack();
        } else {
          h := ValueDiffWhite();
        }
      }
    }

    /** board[p][q] = v. */
    method Put(p: int, q: int, v: Cell)
      requires Valid() && OnBoard(gameSize, p, q)
      modifies board
      ensures Grid() == SetCell(old(Grid()), p, q, v)
    {
      ghost var prev := Grid();
      board[p, q] := v;
      ContentsAfterWrite(board, prev, p, q, v);
    }

    /**
     * The while loop of movePiece for direction (i, j): walk away from (x, y) over
     * the opponent's pieces; the ray captures when a piece of c's closes the run.
     * directionCount ends one past the run.
     */
    method ScanRay(x: int, y: int, i: int, j: int, c: Color) returns (flippable: bool, directionCount: int)
      requires Valid() && OnBoard(gameSize, x, y) && IsDir(i, j) && board[x, y] != Piece(Opp(c))
      ensures flippable == (Flips(Grid(), x, y, i, j, c) > 0)
      ensures flippable ==> directionCount == Flips(Grid(), x, y, i, j, c) + 1
    {
      hide Flips, Run, Paint, FlipRay, Swept, FlipsBefore, Apply, Count, RowCount, Legal;
      ghost var h := Grid();
      var otherChar := Piece(Opp(c));
      var passedOtherChar := false;
      flippable := false;
      directionCount := 1;
      while 0 <= x + i * directionCount < gameSize && 0 <= y + j * directionCount < gameSize
        invariant 1 <= directionCount && passedOtherChar == (directionCount > 1) && !flippable
        invariant (i, j) == (0, 0) ==> directionCount == 1
        invariant forall s :: 1 <= s < directionCount ==>
          OnBoard(gameSize, Along(x, i, s), Along(y, j, s)) && h[Along(x, i, s)][Along(y, j, s)] == otherChar
        decreases gameSize - directionCount
      {
        AlongIsProduct(x, i, directionCount);
        AlongIsProduct(y, j, directionCount);
        var v := board[x + i * directionCount, y + j * directionCount];
        if v == Empty || (v == Piece(c) && !passedOtherChar) {
          break;
        }
        if v == Piece(c) && passedOtherChar {
          flippable := true;
          break;
        } else if v == otherChar {
          passedOtherChar := true;
          directionCount := directionCount + 1;
        }
      }
      AlongIsProduct(x, i, directionCount);
      AlongIsProduct(y, j, directionCount);
      if (i, j) != (0, 0) {
        ghost var p, q := Along(x, i, directionCount), Along(y, j, directionCount);
        assert !(OnBoard(gameSize, p, q) && h[p][q] == otherChar);
        assert flippable == (directionCount > 1 && OnBoard(gameSize, p, q) && h[p][q] == Piece(c));
        ScanOutcome(h, x, y, i, j, c, directionCount);
      }
    }

    /** The flip loop of movePiece: steps 1..directionCount-1 of ray (i, j) become v, nearest first. */
    method FlipRun(x: int, y: int, i: int, j: int, v: Cell, directionCount: int)
      requires Valid() && IsDir(i, j) && directionCount >= 1
      requires forall s :: 1 <= s < directionCount ==> OnBoard(gameSize, Along(x, i, s), Along(y, j, s))
      modifies board
      ensures Grid() == Paint(old(Grid()), x, y, i, j, v, directionCount - 1)
    {
      ghost var h := Grid();
      for flipCount := 1 to directionCount
        invariant Grid() == Paint(h, x, y, i, j, v, flipCount - 1)
      {
        AlongIsProduct(x, i, flipCount);
        AlongIsProduct(y, j, flipCount);
        Put(x + i * flipCount, y + j * flipCount, v);
      }
    }

    /**
     * One pass of movePiece's direction loops: scan ray (i, j) and, when it
     * captures, flip its run in order of distance and then take (x, y).
     */
    method FlipDirection(x: int, y: int, i: int, j: int, c: Color) returns (flippable: bool)
      requires Valid() && OnBoard(gameSize, x, y) && IsDir(i, j) && board[x, y] != Piece(Opp(c))
      modifies board
      ensures flippable == (Flips(old(Grid()), x, y, i, j, c) > 0)
      ensures Grid() == FlipRay(old(Grid()), x, y, i, j, c)
    {
      hide Flips, Run, Swept, FlipsBefore, Apply, Count, RowCount, Legal;
      ghost var h := Grid();
      var directionCount;
      flippable, directionCount := ScanRay(x, y, i, j, c);
      if flippable {
        ghost var m := Flips(h, x, y, i, j, c);
        assert Bracketed(h, x, y, i, j, c, m);
        FlipRun(x, y, i, j, Piece(c), directionCount);
        assert Grid() == Paint(h, x, y, i, j, Piece(c), m);
        Put(x, y, Piece(c));
      }
    }

    /**
     * The direction loops of movePiece on an empty square: every ray in turn, the
     * board after each pass feeding the next; the result says whether any captured.
     */
    method SweepAll(x: int, y: int, c: Color) returns (validPlay: bool)
      requires Valid() && OnBoard(gameSize, x, y) && board[x, y] == Empty
      modifies board
      ensures validPlay == (TotalFlips(old(Grid()), x, y, c) > 0)
      ensures Grid() == Swept(old(Grid()), x, y, c, 2, -1)
    {
      hide Flips, Run, Paint, FlipRay, Apply, Legal, Count, RowCount, Bracketed;
      ghost var g0 := Grid();
      validPlay := false;
      for i := -1 to 2
        invariant Grid() == Swept(g0, x, y, c, i, -1)
        invariant validPlay == (FlipsBefore(g0, x, y, c, i, -1) > 0)
      {
        for j := -1 to 2
          invariant Grid() == Swept(g0, x, y, c, i, j)
          invariant validPlay == (FlipsBefore(g0, x, y, c, i, j) > 0)
        {
          SweptScansOriginal(g0, x, y, c, i, j);
          SweptTarget(g0, x, y, c, i, j);
          var flippable := FlipDirection(x, y, i, j, c);
          validPlay := validPlay || flippable;
        }
      }
    }

    /**
     * movePiece: off the board or on an occupied square, nothing happens and the
     * result is false. Otherwise every ray is scanned and flipped in the loops'
     * order; the result says whether any ray captured, and then the turn passes
     * to the opponent. The call itself is the move when it is legal.
     */
    method MovePiece(x: int, y: int, c: Color) returns (ok: bool)
      requires Valid()
      modifies board, this`playerTurn
      ensures Valid()
      ensures ok == Legal(old(Grid()), x, y, c)
      ensures Grid() == if ok then Apply(old(Grid()), x, y, c) else old(Grid())
      ensures playerTurn == if ok then Opp(c) else old(playerTurn)
    {
      ghost var g0 := Grid();
      if x < 0 || x >= gameSize || y < 0 || y >= gameSize || board[x, y] == O || board[x, y] == X {
        return false;
      }
      var validPlay := SweepAll(x, y, c);
      SweepOutcome(g0, x, y, c);
      if validPlay {
        playerTurn := Opp(c);
      }
      return validPlay;
    }

    /**
     * safeMove: movePiece on the real board; when it fails, the board is replaced
     * by the copy taken beforehand, which holds the same squares.
     */
    method SafeMove(x: int, y: int, c: Color) returns (ok: bool)
      requires Valid()
      modifies this`board, board, this`playerTurn
      ensures Valid()
      ensures ok == Legal(old(Grid()), x, y, c)
      ensures Grid() == if ok then Apply(old(Grid()), x, y, c) else old(Grid())
      ensures playerTurn == if ok then Opp(c) else old(playerTurn)
      ensures if ok then board == old(board) else fresh(board)
    {
      var state := CopyGameState(gameSize, board);
      ok := MovePiece(x, y, c);
      if !ok {
        board := state;
      }
    }

    /** new ReversiBoard(gameSize, copyGameState(gameSize, board), c): an independent copy with c to move. */
    method CopyWithTurn(c: Color) returns (next: ReversiBoard)
      requires Valid()
      ensures fresh(next) && fresh(next.board) && next.Valid() && next.gameSize == gameSize
      ensures next.Snapshot() == Node(Grid(), c) && next.bestMove == null
    {
      var copied := CopyGameState(gameSize, board);
      next := new ReversiBoard.FromState(gameSize, copied, c);
    }

    /**
     * movePiece(i, j, c) on a fresh copy of the board g with c to move: it succeeds
     * exactly when mask, the legal squares of g for c, marks (i, j), and the copy
     * then holds the child position.
     */
    method ChildAt(i: int, j: int, c: Color, ghost g: Grid, ghost mask: seq<seq<bool>>) returns (ok: bool, next: ReversiBoard)
      requires Valid() && 0 <= i < gameSize && 0 <= j < gameSize && Grid() == g && mask == LegalMask(g, c)
      ensures fresh(next) && fresh(next.board) && next.Valid() && next.gameSize == gameSize && next.bestMove == null
      ensures ok == mask[i][j]
      ensures ok ==> next.Snapshot() == Child(g, c, (i, j))
    {
      next := CopyWithTurn(c);
      ok := next.MovePiece(i, j, c);
    }

    /**
     * findValidMoves: for every square in x-outer, y-inner order, try the move on
     * a copy; each copy on which it succeeds is kept. The k-th board returned is
     * the k-th legal move played, with the opponent to move.
     */
    method FindValidMoves(c: Color) returns (moves: seq<ReversiBoard>)
      requires Valid()
      ensures |moves| == |LegalMoves(Grid(), c)|
      ensures forall k :: 0 <= k < |moves| ==>
        fresh(moves[k]) && fresh(moves[k].board) && moves[k].Valid() && moves[k].gameSize == gameSize
        && moves[k].bestMove == null && moves[k].Snapshot() == LegalMoves(Grid(), c)[k]
    {
      hide LegalMask, Child, LegalMoves, Children, Apply, Legal, Count, RowCount;
      ghost var g := Grid();
      ghost var mask := LegalMask(g, c);
      ghost var ts: seq<(int, int)> := [];
      moves := [];
      for i := 0 to gameSize
        invariant ts == Upto(mask, i, 0) && |moves| == |ts|
        invariant forall k :: 0 <= k < |moves| ==> fresh(moves[k]) && fresh(moves[k].board)
        invariant forall k :: 0 <= k < |moves| ==>
          moves[k].Valid() && moves[k].gameSize == gameSize && moves[k].bestMove == null
        invariant forall k :: 0 <= k < |moves| ==> moves[k].Snapshot() == Child(g, c, ts[k])
      {
        for j := 0 to gameSize
          invariant ts == Upto(mask, i, j) && |moves| == |ts|
          invariant forall k :: 0 <= k < |moves| ==> fresh(moves[k]) && fresh(moves[k].board)
          invariant forall k :: 0 <= k < |moves| ==>
            moves[k].Valid() && moves[k].gameSize == gameSize && moves[k].bestMove == null
          invariant forall k :: 0 <= k < |moves| ==> moves[k].Snapshot() == Child(g, c, ts[k])
        {
          var ok, next := ChildAt(i, j, c, g, mask);
          if ok {
            ts := ts + [(i, j)];
            moves := moves + [next];
          }
        }
      }
      forall k | 0 <= k < |moves|
        ensures LegalMoves(g, c)[k] == Child(g, c, ts[k])
      {
        LegalMovesAt(g, c, k);
      }
    }

    /**
     * storeValidMoves: the same loops, keeping the square [i, j] of each copy on
     * which the move succeeds; the result lists exactly the legal squares, in
     * visiting order.
     */
    method StoreValidMoves(c: Color) returns (locs: seq<(int, int)>)
      requires Valid()
      ensures locs == Targets(Grid(), c)
    {
      hide LegalMask, Child;
      ghost var g := Grid();
      ghost var mask := LegalMask(g, c);
      locs := [];
      for i := 0 to gameSize
        invariant Grid() == g && locs == Upto(mask, i, 0)
      {
        for j := 0 to gameSize
          invariant Grid() == g && locs == Upto(mask, i, j)
        {
          var ok, next := ChildAt(i, j, c, g, mask);
          if ok {
            locs := locs + [(i, j)];
          }
        }
      }
    }

    /** isGameOver: neither colour has a legal move on the board. */
    method IsGameOver() returns (over: bool)
      requires Valid()
      ensures over == GameOver(Grid())
    {
      var black := FindValidMoves(Black);
      var white := FindValidMoves(White);
      over := |black| == 0 && |white| == 0;
    }

    /**
     * minimax(maxPlayer, level, alpha, beta, node) with the cutoff depth maxLevel.
     * It returns Value(...). A maximizing call at level 0 that is below the cutoff
     * and has children stores the child at BestChild in bestMove. Every other call
     * leaves bestMove alone: the minimizing branch still searches every child but
     * returns 0.
     */
    method Minimax(maxPlayer: bool, level: int, alpha: int, beta: int, node: ReversiBoard, maxLevel: int)
      returns (value: int)
      requires node.Valid() && node.gameSize >= 1 && level >= 0
      modifies this`bestMove
      ensures Scorable(node.Snapshot())
      ensures value == Value(maxPlayer, level, alpha, beta, node.Snapshot(), maxLevel)
      ensures var n := node.Snapshot();
        if maxPlayer && level == 0 && level <= maxLevel && |MaxKids(n)| > 0 then
          && bestMove != null && fresh(bestMove) && fresh(bestMove.board)
          && bestMove.Valid() && bestMove.gameSize == node.gameSize
          && bestMove.Snapshot() == MaxKids(n)[BestChild(level, alpha, beta, n, maxLevel)]
        else bestMove == old(bestMove)
      decreases maxLevel - level + 1, 1
    {
      hide LegalMoves, Heuristic, Count, LegalMask, Child, Targets, Children;
      ghost var n := node.Snapshot();
      if level > maxLevel {
        value := node.ReversiHeuristic(node.playerTurn);
        return;
      }
      var children := node.FindValidMoves(Mover(node.playerTurn, maxPlayer));
      if |children| == 0 {
        var v := node.GetValue(node.playerTurn);
        value := if maxPlayer then v else -1 * v;
        return;
      }
      ghost var kids := LegalMoves(n.grid, Mover(n.turn, maxPlayer));
      if maxPlayer {
        var max, bestMoveLocation := MaxChildren(level, alpha, beta, children, kids, maxLevel);
        if level == 0 {
          bestMove := children[bestMoveLocation];
        }
        value := max;
      } else {
        MinChildren(level, alpha, beta, children, kids, maxLevel);
        value := 0;
      }
    }

    /**
     * The maximizing loop of minimax over the children, in order: the result is
     * the running max and bestMoveLocation when the loop ends or breaks.
     */
    method MaxChildren(level: int, alpha: int, beta: int, children: seq<ReversiBoard>, ghost kids: seq<Node>, maxLevel: int)
      returns (max: int, bestMoveLocation: nat)
      requires 0 <= level <= maxLevel && |children| == |kids| > 0
      requires forall k :: 0 <= k < |children| ==>
        children[k].Valid() && children[k].gameSize >= 1 && children[k].Snapshot() == kids[k]
      requires forall k :: 0 <= k < |kids| ==> Scorable(kids[k])
      modifies this`bestMove
      ensures (max, bestMoveLocation) == Scan(ChildValues(kids, level + 1, maxLevel), alpha, beta)
      ensures bestMoveLocation < |children| && bestMove == old(bestMove)
      decreases maxLevel - level + 1, 0
    {
      hide LegalMoves, Heuristic, Count, LegalMask, Child, Targets, Children, MaxValue;
      ghost var vals := ChildValues(kids, level + 1, maxLevel);
      max := MinInt;
      bestMoveLocation := 0;
      var a := alpha;
      for i := 0 to |children|
        invariant bestMoveLocation < |children|
        invariant ScanFrom(vals, i, a, beta, max, bestMoveLocation) == Scan(vals, alpha, beta)
        invariant bestMove == old(bestMove)
        invariant forall k :: 0 <= k < |children| ==>
          children[k].Valid() && children[k].gameSize >= 1 && children[k].Snapshot() == kids[k]
      {
        var keep := Minimax(false, level + 1, a, beta, children[i], maxLevel);
        assert keep == vals[i];
        ghost var before := ScanFrom(vals, i, a, beta, max, bestMoveLocation);
        max := Max(max, keep);
        if keep > a {
          a := keep;
          bestMoveLocation := i;
        }
        if beta <= a {
          assert before == (max, bestMoveLocation);
          break;
        }
        assert before == ScanFrom(vals, i + 1, a, beta, max, bestMoveLocation);
      }
    }

    /** The minimizing loop of minimax: it searches every child, lowering beta, and its result is discarded. */
    method MinChildren(level: int, alpha: int, beta: int, children: seq<ReversiBoard>, ghost kids: seq<Node>, maxLevel: int)
      requires 0 <= level <= maxLevel && |children| == |kids|
      requires forall k :: 0 <= k < |children| ==>
        children[k].Valid() && children[k].gameSize >= 1 && children[k].Snapshot() == kids[k]
      modifies this`bestMove
      ensures bestMove == old(bestMove)
      decreases maxLevel - level + 1, 0
    {
      var min := MaxInt;
      var b := beta;
      for i := 0 to |children|
        invariant bestMove == old(bestMove)
        invariant forall k :: 0 <= k < |children| ==>
          children[k].Valid() && children[k].gameSize >= 1 && children[k].Snapshot() == kids[k]
      {
        var keep := Minimax(true, level + 1, alpha, b, children[i], maxLevel);
        min := if min <= keep then min else keep;
        if keep < b {
          b := keep;
        }
      }
    }

    /** cpuMinimax: adopt the array of the stored best move and pass the turn. */
    method CpuMinimax()
      requires bestMove != null
      modifies this`board, this`playerTurn
      ensures board == bestMove.board && playerTurn == Opp(old(playerTurn))
      ensures bestMove.Valid() && bestMove.gameSize == gameSize ==> Valid() && Grid() == bestMove.Grid()
    {
      board := bestMove.board;
      playerTurn := if playerTurn == Black then White else Black;
    }
  }
}
