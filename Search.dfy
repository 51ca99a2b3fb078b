/** The values the memoized searches compute, as recursive specifications
    over boards: the single-player best score, the turn-aware score
    difference (current player minus opponent), the score difference as the
    turn-aware DP is written, and a CPU-perspective minimax used as an
    independent reference. Every recursion follows a move `Next(b, C)`,
    which removes at least two occupied cells, so it terminates. */
module Search {
  import opened Board
  import opened Transforms
  import opened Scan
  import opened Ranking

  /** Points for removing a component of `n` cells: `len(comp) ** 2`. */
  function Gain(n: int): int {
    n * n
  }

  /** The most points a single player can still collect from `b`. */
  ghost function BestScore(b: Board): int
    requires IsBoard(b)
    decreases OccupiedCount(b), 1
  {
    if Moves(b) == [] then 0 else MaxOf(Totals(b))
  }

  /** For each move in scan order: its gain plus the best score after it. */
  ghost function Totals(b: Board): (ts: seq<int>)
    requires IsBoard(b)
    ensures |ts| == |Moves(b)|
    decreases OccupiedCount(b), 0
  {
    seq(|Moves(b)|, i requires 0 <= i < |Moves(b)| =>
      MovesShrink(b, i);
      Gain(|Moves(b)[i]|) + BestScore(Next(b, Moves(b)[i])))
  }

  /** Score difference, current player minus opponent, under optimal play by
      both: the best over moves of the gain minus the opponent's difference
      from the next board. */
  ghost function ScoreDifference(b: Board, cpuTurn: bool): int
    requires IsBoard(b)
    decreases OccupiedCount(b), 1
  {
    if Moves(b) == [] then 0 else MaxOf(Diffs(b, cpuTurn))
  }

  ghost function Diffs(b: Board, cpuTurn: bool): (ds: seq<int>)
    requires IsBoard(b)
    ensures |ds| == |Moves(b)|
    decreases OccupiedCount(b), 0
  {
    seq(|Moves(b)|, i requires 0 <= i < |Moves(b)| =>
      MovesShrink(b, i);
      Gain(|Moves(b)[i]|) - ScoreDifference(Next(b, Moves(b)[i]), !cpuTurn))
  }

  /** The recurrence as the turn-aware DP is written: on the CPU's turn the
      best of `gain - V(next, False)`, on the other turn the worst of
      `V(next, True) - gain`. */
  ghost function ScoreDifferenceAsWritten(b: Board, cpuTurn: bool): int
    requires IsBoard(b)
    decreases OccupiedCount(b), 1
  {
    if Moves(b) == [] then 0
    else if cpuTurn then MaxOf(WrittenOptions(b, cpuTurn))
    else MinOf(WrittenOptions(b, cpuTurn))
  }

  ghost function WrittenOptions(b: Board, cpuTurn: bool): (os: seq<int>)
    requires IsBoard(b)
    ensures |os| == |Moves(b)|
    decreases OccupiedCount(b), 0
  {
    seq(|Moves(b)|, i requires 0 <= i < |Moves(b)| =>
      MovesShrink(b, i);
      var g := Gain(|Moves(b)[i]|);
      if cpuTurn then g - ScoreDifferenceAsWritten(Next(b, Moves(b)[i]), false)
      else ScoreDifferenceAsWritten(Next(b, Moves(b)[i]), true) - g)
  }

  /** Reference minimax, always from the CPU's side: the CPU maximises its
      gain plus the rest, the opponent minimises the rest minus its gain. */
  ghost function CpuAdvantage(b: Board, cpuTurn: bool): int
    requires IsBoard(b)
    decreases OccupiedCount(b), 1
  {
    if Moves(b) == [] then 0
    else if cpuTurn then MaxOf(AdvantageOptions(b, cpuTurn))
    else MinOf(AdvantageOptions(b, cpuTurn))
  }

  ghost function AdvantageOptions(b: Board, cpuTurn: bool): (os: seq<int>)
    requires IsBoard(b)
    ensures |os| == |Moves(b)|
    decreases OccupiedCount(b), 0
  {
    seq(|Moves(b)|, i requires 0 <= i < |Moves(b)| =>
      MovesShrink(b, i);
      var g := Gain(|Moves(b)[i]|);
      if cpuTurn then g + CpuAdvantage(Next(b, Moves(b)[i]), false)
      else CpuAdvantage(Next(b, Moves(b)[i]), true) - g)
  }

  // ---------------------------------------------------------------------------
  // Properties

  /** Every move gains at least four points. */
  lemma GainOfMove(b: Board, i: int)
    requires IsBoard(b) && 0 <= i < |Moves(b)|
    ensures Gain(|Moves(b)[i]|) >= 4
  {
    MovesSound(b);
    var n := |Moves(b)[i]|;
    assert n >= 2;
    assert n * n >= 2 * n;
  }

  /** The best score is never negative, and every total is at least four. */
  lemma {:induction false} BestScoreNonNegative(b: Board)
    requires IsBoard(b)
    ensures BestScore(b) >= 0
    ensures forall i | 0 <= i < |Totals(b)| :: Totals(b)[i] >= 4
    decreases OccupiedCount(b)
  {
    forall i | 0 <= i < |Totals(b)| ensures Totals(b)[i] >= 4 {
      MovesShrink(b, i);
      BestScoreNonNegative(Next(b, Moves(b)[i]));
      GainOfMove(b, i);
    }
    if Moves(b) != [] {
      MaxOfIsMax(Totals(b));
    }
  }

  /** With a move available the best score is the largest total, and some
      move reaches it; with none it is 0. */
  lemma BestScoreIsMaxTotal(b: Board)
    requires IsBoard(b)
    ensures Moves(b) == [] ==> BestScore(b) == 0
    ensures forall i | 0 <= i < |Moves(b)| :: Totals(b)[i] <= BestScore(b)
    ensures Moves(b) != [] ==> exists i | 0 <= i < |Moves(b)| :: Totals(b)[i] == BestScore(b)
  {
    if Moves(b) != [] {
      MaxOfIsMax(Totals(b));
    }
  }

  /** The score difference does not depend on whose turn it is: both players
      face the same game, so the turn flag of the memo key is redundant. */
  lemma {:induction false} TurnIrrelevant(b: Board)
    requires IsBoard(b)
    ensures ScoreDifference(b, true) == ScoreDifference(b, false)
    ensures Diffs(b, true) == Diffs(b, false)
    decreases OccupiedCount(b)
  {
    forall i | 0 <= i < |Moves(b)| ensures Diffs(b, true)[i] == Diffs(b, false)[i] {
      MovesShrink(b, i);
      TurnIrrelevant(Next(b, Moves(b)[i]));
    }
    assert Diffs(b, true) == Diffs(b, false);
  }

  /** The difference is the CPU's minimax advantage seen from the player to
      move: equal to it on the CPU's turn, its negation on the other. */
  lemma {:induction false} DifferenceIsAdvantage(b: Board, cpuTurn: bool)
    requires IsBoard(b)
    ensures ScoreDifference(b, cpuTurn) == if cpuTurn then CpuAdvantage(b, cpuTurn) else -CpuAdvantage(b, cpuTurn)
    decreases OccupiedCount(b)
  {
    if Moves(b) != [] {
      forall i | 0 <= i < |Moves(b)|
        ensures cpuTurn ==> Diffs(b, cpuTurn)[i] == AdvantageOptions(b, cpuTurn)[i]
        ensures !cpuTurn ==> Diffs(b, cpuTurn)[i] == -AdvantageOptions(b, cpuTurn)[i]
      {
        MovesShrink(b, i);
        DifferenceIsAdvantage(Next(b, Moves(b)[i]), !cpuTurn);
      }
      if cpuTurn {
        assert Diffs(b, cpuTurn) == AdvantageOptions(b, cpuTurn);
      } else {
        MaxOfNegated(Diffs(b, cpuTurn), AdvantageOptions(b, cpuTurn));
      }
    }
  }

  /** The score difference is the best over moves of the gain minus the
      opponent's difference afterwards, and 0 without a move. */
  lemma ScoreDifferenceIsMax(b: Board, cpuTurn: bool)
    requires IsBoard(b)
    ensures Moves(b) == [] ==> ScoreDifference(b, cpuTurn) == 0
    ensures forall i | 0 <= i < |Moves(b)| :: Diffs(b, cpuTurn)[i] <= ScoreDifference(b, cpuTurn)
    ensures Moves(b) != [] ==> exists i | 0 <= i < |Moves(b)| :: Diffs(b, cpuTurn)[i] == ScoreDifference(b, cpuTurn)
  {
    if Moves(b) != [] {
      MaxOfIsMax(Diffs(b, cpuTurn));
    }
  }

  /** Every stored entry of a single-player memo is the best score of its board. */
  ghost predicate MemoSound(memo: map<Board, int>) {
    forall k | k in memo :: IsBoard(k) && memo[k] == BestScore(k)
  }

  /** Storing the best score of a board keeps the memo sound. */
  lemma StoreBest(memo: map<Board, int>, b: Board, v: int)
    requires MemoSound(memo) && IsBoard(b) && v == BestScore(b)
    ensures MemoSound(memo[b := v])
  {
  }

  /** The move a strict-`>` scan over the totals keeps reaches the best
      score, and every move before it falls short. */
  lemma FirstBest(b: Board)
    requires IsBoard(b) && Moves(b) != []
    ensures var k := ArgMax(Totals(b));
      && k < |Moves(b)| && Totals(b)[k] == BestScore(b)
      && forall j | 0 <= j < k :: Totals(b)[j] < BestScore(b)
  {
    ArgMaxIsFirstMax(Totals(b));
  }

  /** A left-to-right scan of the totals that starts from 0 and keeps a new
      best only on a strict improvement ends on the best score, held by the
      first move that reaches it. */
  lemma KeptBest(b: Board)
    requires IsBoard(b) && Moves(b) != []
    ensures Keep(Totals(b), |Totals(b)|, Finite(0)) == (Finite(BestScore(b)), ArgMax(Totals(b)))
  {
    BestScoreNonNegative(b);
    BestScoreIsMaxTotal(b);
    KeepAll(Totals(b), Finite(0));
  }

  /** A running maximum of the differences started from `-inf` ends on
      the score difference. */
  lemma KeptDifference(b: Board, cpuTurn: bool, acc: ExtInt)
    requires IsBoard(b) && Moves(b) != []
    requires Keep(Diffs(b, cpuTurn), |Moves(b)|, NegInf).0 == acc
    ensures acc == Finite(ScoreDifference(b, cpuTurn))
  {
    KeepAll(Diffs(b, cpuTurn), NegInf);
  }
}
