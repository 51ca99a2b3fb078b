/** Folds the selectors use: the maximum and minimum of a non-empty list of
    scores, and the index a left-to-right scan with a strict `>` keeps,
    which is the first index holding the maximum. */
module Ranking {

  /** A score or the `float('-inf')` sentinel a running maximum starts from. */
  datatype ExtInt = NegInf | Finite(n: int)

  function Max(a: int, b: int): int {
    if a >= b then a else b
  }

  function Min(a: int, b: int): int {
    if a <= b then a else b
  }

  function MaxOf(xs: seq<int>): int
    requires |xs| > 0
  {
    if |xs| == 1 then xs[0] else Max(MaxOf(xs[..|xs| - 1]), xs[|xs| - 1])
  }

  function MinOf(xs: seq<int>): int
    requires |xs| > 0
  {
    if |xs| == 1 then xs[0] else Min(MinOf(xs[..|xs| - 1]), xs[|xs| - 1])
  }

  /** The index a scan keeps when it replaces its choice only on a strictly
      larger score. */
  function ArgMax(xs: seq<int>): (i: nat)
    requires |xs| > 0
    ensures i < |xs|
  {
    if |xs| == 1 then 0
    else if xs[|xs| - 1] > MaxOf(xs[..|xs| - 1]) then |xs| - 1
    else ArgMax(xs[..|xs| - 1])
  }

  lemma {:induction false} MaxOfIsMax(xs: seq<int>)
    requires |xs| > 0
    ensures forall i | 0 <= i < |xs| :: xs[i] <= MaxOf(xs)
    ensures exists i | 0 <= i < |xs| :: xs[i] == MaxOf(xs)
  {
    if |xs| > 1 {
      var front := xs[..|xs| - 1];
      MaxOfIsMax(front);
      forall i | 0 <= i < |xs| ensures xs[i] <= MaxOf(xs) {
        if i < |xs| - 1 {
          assert xs[i] == front[i];
        }
      }
      if MaxOf(xs) != xs[|xs| - 1] {
        var i :| 0 <= i < |front| && front[i] == MaxOf(front);
        assert xs[i] == MaxOf(xs);
      } else {
        assert xs[|xs| - 1] == MaxOf(xs);
      }
    } else {
      assert xs[0] == MaxOf(xs);
    }
  }

  lemma {:induction false} MinOfIsMin(xs: seq<int>)
    requires |xs| > 0
    ensures forall i | 0 <= i < |xs| :: MinOf(xs) <= xs[i]
    ensures exists i | 0 <= i < |xs| :: xs[i] == MinOf(xs)
  {
    if |xs| > 1 {
      var front := xs[..|xs| - 1];
      MinOfIsMin(front);
      forall i | 0 <= i < |xs| ensures MinOf(xs) <= xs[i] {
        if i < |xs| - 1 {
          assert xs[i] == front[i];
        }
      }
      if MinOf(xs) != xs[|xs| - 1] {
        var i :| 0 <= i < |front| && front[i] == MinOf(front);
        assert xs[i] == MinOf(xs);
      } else {
        assert xs[|xs| - 1] == MinOf(xs);
      }
    } else {
      assert xs[0] == MinOf(xs);
    }
  }

  /** The kept index holds the maximum and every earlier score is smaller. */
  lemma {:induction false} ArgMaxIsFirstMax(xs: seq<int>)
    requires |xs| > 0
    ensures ArgMax(xs) < |xs| && xs[ArgMax(xs)] == MaxOf(xs)
    ensures forall j | 0 <= j < ArgMax(xs) :: xs[j] < MaxOf(xs)
  {
    if |xs| > 1 {
      var front := xs[..|xs| - 1];
      ArgMaxIsFirstMax(front);
      MaxOfIsMax(front);
      if xs[|xs| - 1] > MaxOf(front) {
        forall j | 0 <= j < |xs| - 1 ensures xs[j] < MaxOf(xs) {
          assert xs[j] == front[j];
        }
      } else {
        forall j | 0 <= j < ArgMax(xs) ensures xs[j] < MaxOf(xs) {
          assert xs[j] == front[j];
        }
        assert xs[ArgMax(xs)] == front[ArgMax(front)];
      }
    }
  }

  /** Any index that holds the maximum with only smaller scores before it is
      the kept index. */
  lemma ArgMaxUnique(xs: seq<int>, k: int)
    requires 0 <= k < |xs| && xs[k] == MaxOf(xs)
    requires forall j | 0 <= j < k :: xs[j] < MaxOf(xs)
    ensures ArgMax(xs) == k
  {
    ArgMaxIsFirstMax(xs);
  }

  /** Negating every score turns the maximum into the negated minimum. */
  lemma {:induction false} MaxOfNegated(xs: seq<int>, ys: seq<int>)
    requires |xs| == |ys| > 0
    requires forall i | 0 <= i < |xs| :: xs[i] == -ys[i]
    ensures MaxOf(xs) == -MinOf(ys)
  {
    if |xs| > 1 {
      MaxOfNegated(xs[..|xs| - 1], ys[..|ys| - 1]);
    }
  }

  /** Extending a list by one score extends its running maximum. */
  lemma MaxOfSnoc(xs: seq<int>, i: int)
    requires 0 <= i < |xs|
    ensures i == 0 ==> MaxOf(xs[..i + 1]) == xs[0]
    ensures i > 0 ==> MaxOf(xs[..i + 1]) == Max(MaxOf(xs[..i]), xs[i])
  {
    assert xs[..i + 1][..i] == xs[..i];
  }

  /** Extending a list by one score moves the kept index only on a strictly
      larger score. */
  lemma ArgMaxSnoc(xs: seq<int>, i: int)
    requires 0 < i < |xs|
    ensures ArgMax(xs[..i + 1]) == if xs[i] > MaxOf(xs[..i]) then i else ArgMax(xs[..i])
  {
    assert xs[..i + 1][..i] == xs[..i];
  }

  /** A left-to-right scan that replaces its choice only on a strictly
      larger score, started from `start` (0, or the `-inf` sentinel): the
      best score after the first `i` scores and the index it was first met
      at, -1 while nothing has been taken. */
  function Keep(xs: seq<int>, i: nat, start: ExtInt): (ExtInt, int)
    requires i <= |xs|
  {
    if i == 0 then (start, -1)
    else
      var (best, k) := Keep(xs, i - 1, start);
      if best.NegInf? || xs[i - 1] > best.n then (Finite(xs[i - 1]), i - 1) else (best, k)
  }

  /** Every score beats the starting value. */
  predicate Above(xs: seq<int>, start: ExtInt) {
    start.NegInf? || forall i | 0 <= i < |xs| :: xs[i] > start.n
  }

  /** When every score beats the start, the scan ends on the maximum and
      the first index holding it. */
  lemma {:induction false} KeepIsFirstMax(xs: seq<int>, i: nat, start: ExtInt)
    requires 0 < i <= |xs| && Above(xs, start)
    ensures Keep(xs, i, start) == (Finite(MaxOf(xs[..i])), ArgMax(xs[..i]))
  {
    if i == 1 {
      assert |xs[..1]| == 1 && xs[..1][0] == xs[0];
    } else {
      KeepIsFirstMax(xs, i - 1, start);
      MaxOfSnoc(xs, i - 1);
      ArgMaxSnoc(xs, i - 1);
    }
  }

  /** The whole scan ends on the maximum and its first index. */
  lemma KeepAll(xs: seq<int>, start: ExtInt)
    requires |xs| > 0 && Above(xs, start)
    ensures Keep(xs, |xs|, start) == (Finite(MaxOf(xs)), ArgMax(xs))
  {
    KeepIsFirstMax(xs, |xs|, start);
    assert xs[..|xs|] == xs;
  }

  /** `max(best, x)` where `best` may be the `-inf` sentinel. */
  function MaxExt(best: ExtInt, x: int): (m: ExtInt)
  {
    if best.NegInf? || x > best.n then Finite(x) else best
  }

  /** One more step of the scan keeps the larger of the best so far and the
      next score, so a running `max` tracks the scan's value. */
  lemma KeepStep(xs: seq<int>, i: nat, start: ExtInt, best: ExtInt)
    requires i < |xs| && Keep(xs, i, start).0 == best
    ensures Keep(xs, i + 1, start).0 == MaxExt(best, xs[i])
  {
  }
}
