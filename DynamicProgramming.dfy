/** The turn-aware search of the divide-and-conquer program:
    `dp_score_difference`, the score difference (player to move minus
    opponent) under optimal play, memoized on the pair (board, turn flag).
    The recurrence used here is the corrected one: both turns take the best
    of `gain - V(next, other turn)` (see `Search.ScoreDifference`); the
    recurrence as written is `Search.ScoreDifferenceAsWritten`. */
module DifferenceSearch {
  import opened Board
  import opened Transforms
  import opened Scan
  import opened Ranking
  import opened Search
  import opened GridADT

  /** Every stored entry, keyed by board and turn flag, is the score
      difference of that board for the player to move. */
  ghost predicate DiffMemoSound(memo: map<(Board, bool), int>) {
    forall k | k in memo :: IsBoard(k.0) && memo[k] == ScoreDifference(k.0, k.1)
  }

  /** `dp_score_difference`: a memo hit returns the stored value; with no
      removable component 0 (not stored); otherwise the best over the
      components of `size² - V(next, not turn)`, which is stored under
      `(board, turn)`. The grid itself is only read: every candidate is
      simulated on a copy. */
  method DpScoreDifference(g: Grid, memo: map<(Board, bool), int>, isCpuTurn: bool)
    returns (value: int, memo': map<(Board, bool), int>)
    requires g.Valid() && DiffMemoSound(memo)
    ensures value == ScoreDifference(g.board, isCpuTurn)
    ensures DiffMemoSound(memo')
    ensures Moves(g.board) != [] ==> (g.board, isCpuTurn) in memo' && memo'[(g.board, isCpuTurn)] == value
    decreases OccupiedCount(g.board), 2
  {
    var state := (g.board, isCpuTurn);
    if state in memo {
      return memo[state], memo;
    }
    var components := g.AllComponents();
    if |components| == 0 {
      return 0, memo;
    }
    value, memo' := BestDifference(g, components, memo, isCpuTurn);
    memo' := memo'[state := value];
  }

  /** The accumulator loop of `dp_score_difference`: `best` starts at
      `-inf` and becomes `max(best, gain - future)` for each component. */
  method BestDifference(g: Grid, components: seq<seq<Pos>>, memo: map<(Board, bool), int>, isCpuTurn: bool)
    returns (best: int, memo': map<(Board, bool), int>)
    requires g.Valid() && ListsMoves(g.board, components) && |components| > 0
    requires DiffMemoSound(memo)
    ensures best == ScoreDifference(g.board, isCpuTurn)
    ensures DiffMemoSound(memo')
    decreases OccupiedCount(g.board), 1
  {
    ghost var b := g.board;
    ghost var diffs := Diffs(b, isCpuTurn);
    var acc := NegInf;
    memo' := memo;
    for i := 0 to |components|
      invariant g.board == b
      invariant DiffMemoSound(memo')
      invariant Keep(diffs, i, NegInf).0 == acc
    {
      var d;
      d, memo' := MoveDifference(g, components[i], i, memo', isCpuTurn);
      KeepStep(diffs, i, NegInf, acc);
      acc := MaxExt(acc, d);
    }
    KeptDifference(g.board, isCpuTurn, acc);
    best := acc.n;
  }

  /** `gain - dp_score_difference(sim, memo, not turn)` for a listing of the
      `i`-th move, where `sim` is a copy with the component removed and
      gravity applied. */
  method MoveDifference(g: Grid, comp: seq<Pos>, ghost i: int, memo: map<(Board, bool), int>, isCpuTurn: bool)
    returns (d: int, memo': map<(Board, bool), int>)
    requires g.Valid() && ListsMove(g.board, comp, i) && DiffMemoSound(memo)
    ensures d == Diffs(g.board, isCpuTurn)[i]
    ensures DiffMemoSound(memo')
    decreases OccupiedCount(g.board), 0
  {
    ListedMove(g.board, comp, i);
    var sim := g.Simulate(comp);
    var gain := Gain(|comp|);
    var future;
    future, memo' := DpScoreDifference(sim, memo, !isCpuTurn);
    d := gain - future;
  }
}

/** The divide → conquer → combine driver of the divide-and-conquer program
    (`cpu_best_move`): one fresh memo shared by every region, one
    `conquer_region` result per column region, in region order, handed to
    `combine_results`. */
module DynamicProgramming {
  import opened Board
  import opened Ranking
  import opened GridADT
  import opened DifferenceSearch
  import opened Conquering

  /** `cpu_best_move`. The column regions (`divide_board_regions` as this
      driver uses it, a list of column lists) and `combine_results` are not
      part of the program's shown code, so both are parameters; the list of
      per-region results is returned beside the chosen component. */
  method CpuBestMove(g: Grid, regionsOf: Board -> seq<seq<int>>,
                     combine: seq<(Option<seq<Pos>>, ExtInt)> -> Option<seq<Pos>>)
    returns (bestComponent: Option<seq<Pos>>, results: seq<(Option<seq<Pos>>, ExtInt)>)
    requires g.Valid()
    ensures |results| == |regionsOf(g.board)|
    ensures forall i | 0 <= i < |results| :: Conquered(g.board, regionsOf(g.board)[i], results[i])
    ensures bestComponent == combine(results)
  {
    var memo: map<(Board, bool), int> := map[];
    var regions := regionsOf(g.board);
    results := [];
    ghost var b := g.board;
    for i := 0 to |regions|
      invariant g.board == b
      invariant DiffMemoSound(memo)
      invariant |results| == i
      invariant forall j | 0 <= j < i :: Conquered(g.board, regions[j], results[j])
    {
      var comp, value;
      comp, value, memo := ConquerRegion(g, regions[i], memo);
      results := results + [(comp, value)];
    }
    bestComponent := combine(results);
  }
}
