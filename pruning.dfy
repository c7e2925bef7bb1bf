// The maximizing loop of ReversiBoard.minimax, on the values of the children
// in the order they are tried: keep the running maximum, raise alpha (and
// remember the child) on a strictly larger value, and stop once beta <= alpha.

module Pruning {

  /** Java's Integer.MIN_VALUE and Integer.MAX_VALUE, the initial max and min and the root window. */
  const MinInt: int := -2147483648
  const MaxInt: int := 2147483647

  function Max(a: int, b: int): int
  {
    if a >= b then a else b
  }

  /** The loop from child i on, with the running alpha, max and best index; the result is (max, best). */
  function ScanFrom(vals: seq<int>, i: nat, alpha: int, beta: int, max: int, best: nat): (r: (int, nat))
    requires i <= |vals|
    ensures best < |vals| ==> r.1 < |vals|
    decreases |vals| - i
  {
    if i == |vals| then (max, best)
    else
      var keep := vals[i];
      var max' := Max(max, keep);
      var alpha', best' := if keep > alpha then keep else alpha, if keep > alpha then i else best;
      if beta <= alpha' then (max', best')
      else ScanFrom(vals, i + 1, alpha', beta, max', best')
  }

  /** The whole loop, started with max = Integer.MIN_VALUE and bestMoveLocation = 0. */
  function Scan(vals: seq<int>, alpha: int, beta: int): (int, nat)
  {
    ScanFrom(vals, 0, alpha, beta, MinInt, 0)
  }

  /** m0 raised by each of the first k values in turn: the running alpha or the running max. */
  function RunMax(vals: seq<int>, m0: int, k: nat): (r: int)
    requires k <= |vals|
    ensures r >= m0
  {
    if k == 0 then m0 else Max(RunMax(vals, m0, k - 1), vals[k - 1])
  }

  /** The running maximum bounds the first k values and is m0 or one of them. */
  lemma {:induction false} RunMaxIsMax(vals: seq<int>, m0: int, k: nat)
    requires k <= |vals|
    ensures forall j :: 0 <= j < k ==> vals[j] <= RunMax(vals, m0, k)
    ensures RunMax(vals, m0, k) == m0 || exists j :: 0 <= j < k && vals[j] == RunMax(vals, m0, k)
  {
    if k > 0 {
      RunMaxIsMax(vals, m0, k - 1);
    }
  }

  /** Raising by one more value. */
  lemma RunMaxStep(vals: seq<int>, m0: int, k: nat)
    requires k < |vals|
    ensures RunMax(vals, m0, k + 1) == Max(RunMax(vals, m0, k), vals[k])
  {
  }

  /** The loop stops after child e - 1 for the least e >= start at which beta <= the running alpha. */
  function EvaluatedFrom(vals: seq<int>, alpha: int, beta: int, start: nat): (e: nat)
    requires 1 <= start <= |vals|
    ensures start <= e <= |vals|
    ensures forall k :: start <= k < e ==> RunMax(vals, alpha, k) < beta
    ensures e < |vals| ==> beta <= RunMax(vals, alpha, e)
    decreases |vals| - start
  {
    if start == |vals| || beta <= RunMax(vals, alpha, start) then start
    else EvaluatedFrom(vals, alpha, beta, start + 1)
  }

  /**
   * How many children the loop evaluates: up to and including the first one after
   * which beta <= alpha, or all of them.
   */
  function Evaluated(vals: seq<int>, alpha: int, beta: int): (e: nat)
    ensures e <= |vals| && (|vals| > 0 ==> e >= 1)
    ensures forall k :: 1 <= k < e ==> RunMax(vals, alpha, k) < beta
    ensures 0 < e < |vals| ==> beta <= RunMax(vals, alpha, e)
  {
    if |vals| == 0 then 0 else EvaluatedFrom(vals, alpha, beta, 1)
  }

  /**
   * `best` is what bestMoveLocation holds after the first k children: 0 while none
   * beat alpha0, otherwise the earliest child holding the largest value seen.
   */
  predicate BestSoFar(vals: seq<int>, alpha0: int, k: nat, best: nat)
    requires k <= |vals|
  {
    if RunMax(vals, alpha0, k) == alpha0 then best == 0
    else best < k && vals[best] == RunMax(vals, alpha0, k) && forall j :: 0 <= j < best ==> vals[j] < vals[best]
  }

  /** One turn of the loop keeps alpha the running maximum and bestMoveLocation its earliest holder. */
  lemma BestStep(vals: seq<int>, alpha0: int, i: nat, alpha: int, best: nat)
    requires i < |vals| && alpha == RunMax(vals, alpha0, i) && BestSoFar(vals, alpha0, i, best)
    ensures RunMax(vals, alpha0, i + 1) == if vals[i] > alpha then vals[i] else alpha
    ensures BestSoFar(vals, alpha0, i + 1, if vals[i] > alpha then i else best)
  {
    var keep := vals[i];
    if keep > alpha {
      assert RunMax(vals, alpha0, i + 1) == keep > alpha0;
      RunMaxIsMax(vals, alpha0, i);
      forall j | 0 <= j < i
        ensures vals[j] < keep
      {
        assert vals[j] <= alpha;
      }
    } else {
      assert RunMax(vals, alpha0, i + 1) == alpha;
    }
  }

  lemma {:induction false} ScanFromSpec(vals: seq<int>, alpha0: int, beta: int, i: nat, alpha: int, max: int, best: nat)
    requires i < |vals|
    requires alpha == RunMax(vals, alpha0, i) && max == RunMax(vals, MinInt, i) && BestSoFar(vals, alpha0, i, best)
    ensures var e, r := EvaluatedFrom(vals, alpha0, beta, i + 1), ScanFrom(vals, i, alpha, beta, max, best);
      r.0 == RunMax(vals, MinInt, e) && BestSoFar(vals, alpha0, e, r.1)
    decreases |vals| - i
  {
    hide RunMax;
    var keep := vals[i];
    var alpha', best' := if keep > alpha then keep else alpha, if keep > alpha then i else best;
    var max' := Max(max, keep);
    BestStep(vals, alpha0, i, alpha, best);
    RunMaxStep(vals, MinInt, i);
    if beta <= alpha' || i + 1 == |vals| {
      assert ScanFrom(vals, i, alpha, beta, max, best) == (max', best');
      assert EvaluatedFrom(vals, alpha0, beta, i + 1) == i + 1;
    } else {
      assert ScanFrom(vals, i, alpha, beta, max, best) == ScanFrom(vals, i + 1, alpha', beta, max', best');
      assert EvaluatedFrom(vals, alpha0, beta, i + 1) == EvaluatedFrom(vals, alpha0, beta, i + 2);
      ScanFromSpec(vals, alpha0, beta, i + 1, alpha', max', best');
    }
  }

  /**
   * The maximizing loop returns the maximum of the children it evaluates, and
   * bestMoveLocation is 0 when none beats the initial alpha, otherwise the earliest
   * child with that maximum.
   */
  lemma ScanSpec(vals: seq<int>, alpha: int, beta: int)
    requires |vals| >= 1 && forall k :: 0 <= k < |vals| ==> vals[k] >= MinInt
    ensures var e, r := Evaluated(vals, alpha, beta), Scan(vals, alpha, beta);
      && (forall k :: 0 <= k < e ==> vals[k] <= r.0)
      && (exists k :: 0 <= k < e && vals[k] == r.0)
      && BestSoFar(vals, alpha, e, r.1)
  {
    ScanFromSpec(vals, alpha, beta, 0, alpha, MinInt, 0);
    var e, r := Evaluated(vals, alpha, beta), Scan(vals, alpha, beta);
    RunMaxIsMax(vals, MinInt, e);
    if r.0 == MinInt {
      assert vals[0] <= r.0;
    }
  }

  /**
   * With the root window (Integer.MIN_VALUE, Integer.MAX_VALUE) and every value
   * below Integer.MAX_VALUE, nothing is pruned: every child is evaluated.
   */
  lemma OpenWindowEvaluatesAll(vals: seq<int>)
    requires forall k :: 0 <= k < |vals| ==> MinInt <= vals[k] < MaxInt
    ensures Evaluated(vals, MinInt, MaxInt) == |vals|
  {
    var e := Evaluated(vals, MinInt, MaxInt);
    RunMaxIsMax(vals, MinInt, e);
  }

  /**
   * Under the root window, with every value strictly between the sentinels, the
   * loop returns the largest of all the values and bestMoveLocation is the
   * earliest index holding it.
   */
  lemma OpenWindowScan(vals: seq<int>)
    requires |vals| >= 1 && forall k :: 0 <= k < |vals| ==> MinInt < vals[k] < MaxInt
    ensures var r := Scan(vals, MinInt, MaxInt);
      && (forall k :: 0 <= k < |vals| ==> vals[k] <= r.0)
      && r.1 < |vals| && vals[r.1] == r.0
      && (forall k :: 0 <= k < r.1 ==> vals[k] < r.0)
  {
    OpenWindowEvaluatesAll(vals);
    ScanSpec(vals, MinInt, MaxInt);
    var r := Scan(vals, MinInt, MaxInt);
    var top := RunMax(vals, MinInt, |vals|);
    RunMaxIsMax(vals, MinInt, |vals|);
    assert top != MinInt by {
      assert vals[0] <= top;
    }
    assert top == r.0;
  }
}
