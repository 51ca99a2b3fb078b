/** The single-player search of the first program: `dp_max_score`, the best
    score still reachable from a board, memoized on the board value, and
    `cpu_best_move`, which keeps the first component whose removal leads to
    the best total. The process-wide `memo` dictionary is threaded through
    the calls as a map. */
module EnhancedVersion {
  import opened Board
  import opened Transforms
  import opened Scan
  import opened Ranking
  import opened Search
  import opened GridADT

  /** `dp_max_score`: on a memo hit the stored value; with no removable
      component 0 (not stored); otherwise the largest `size² + future`,
      which is then stored under the board. */
  method DpMaxScore(g: Grid, memo: map<Board, int>) returns (score: int, memo': map<Board, int>)
    requires g.Valid() && MemoSound(memo)
    ensures score == BestScore(g.board) && score >= 0
    ensures MemoSound(memo')
    ensures Moves(g.board) != [] ==> g.board in memo' && memo'[g.board] == score
    decreases OccupiedCount(g.board), 3
  {
    var state := g.board;
    BestScoreNonNegative(state);
    if state in memo {
      return memo[state], memo;
    }
    var components := g.AllComponents();
    if |components| == 0 {
      return 0, memo;
    }
    BestScoreIsMaxTotal(state);
    score, memo' := MaxTotal(g, components, memo);
    StoreBest(memo', state, score);
    memo' := memo'[state := score];
  }

  /** The `max_score` loop of `dp_max_score`: the largest total over the
      listed components, starting from 0. */
  method MaxTotal(g: Grid, components: seq<seq<Pos>>, memo: map<Board, int>)
    returns (maxScore: int, memo': map<Board, int>)
    requires g.Valid() && ListsMoves(g.board, components) && |components| > 0
    requires MemoSound(memo)
    ensures maxScore == BestScore(g.board)
    ensures MemoSound(memo')
    decreases OccupiedCount(g.board), 2
  {
    ghost var b := g.board;
    maxScore := 0;
    memo' := memo;
    for i := 0 to |components|
      invariant g.board == b
      invariant MemoSound(memo')
      invariant Keep(Totals(b), i, Finite(0)).0 == Finite(maxScore)
    {
      maxScore, memo' := MaxStep(g, components, i, maxScore, memo');
    }
    KeptBest(b);
  }

  /** One turn of the `max_score` loop: `max(max_score, score)` for the
      `i`-th listed component. */
  method MaxStep(g: Grid, components: seq<seq<Pos>>, i: int, maxScore: int, memo: map<Board, int>)
    returns (maxScore': int, memo': map<Board, int>)
    requires g.Valid() && ListsMoves(g.board, components) && 0 <= i < |components|
    requires MemoSound(memo) && Keep(Totals(g.board), i, Finite(0)).0 == Finite(maxScore)
    ensures Keep(Totals(g.board), i + 1, Finite(0)).0 == Finite(maxScore')
    ensures MemoSound(memo')
    decreases OccupiedCount(g.board), 1
  {
    var score;
    score, memo' := MoveTotal(g, components, i, memo);
    KeepStep(Totals(g.board), i, Finite(0), Finite(maxScore));
    maxScore' := Max(maxScore, score);
  }

  /** The points for removing the `i`-th listed component plus the best
      score after it: `len(comp) ** 2 + dp_max_score(new_grid)`. */
  method MoveTotal(g: Grid, components: seq<seq<Pos>>, i: int, memo: map<Board, int>)
    returns (total: int, memo': map<Board, int>)
    requires g.Valid() && ListsMoves(g.board, components) && 0 <= i < |components|
    requires MemoSound(memo)
    ensures total == Totals(g.board)[i] && total >= 4
    ensures MemoSound(memo')
    decreases OccupiedCount(g.board), 0
  {
    ListedMove(g.board, components[i], i);
    BestScoreNonNegative(g.board);
    var newGrid := g.Simulate(components[i]);
    var future;
    future, memo' := DpMaxScore(newGrid, memo);
    total := Gain(|components[i]|) + future;
  }

  /** `cpu_best_move`: scan the removable components in order and keep one
      only when its `size² + dp_max_score(next)` beats the best so far
      (strictly, starting from 0). The result is empty exactly when no move
      is left, and otherwise the first component reaching the best score. */
  method CpuBestMove(g: Grid, memo: map<Board, int>) returns (bestMove: seq<Pos>, memo': map<Board, int>)
    requires g.Valid() && MemoSound(memo)
    ensures MemoSound(memo')
    ensures bestMove == [] <==> Moves(g.board) == []
    ensures Moves(g.board) != [] ==>
      var k := ArgMax(Totals(g.board));
      && Elements(bestMove) == Moves(g.board)[k] && NoDup(bestMove)
      && |bestMove| == |Moves(g.board)[k]|
      && Totals(g.board)[k] == BestScore(g.board)
      && forall j | 0 <= j < k :: Totals(g.board)[j] < BestScore(g.board)
  {
    var components := g.AllComponents();
    bestMove, memo' := KeepBest(g, components, memo);
    if |components| > 0 {
      FirstBest(g.board);
      ListedMove(g.board, components[ArgMax(Totals(g.board))], ArgMax(Totals(g.board)));
    }
  }

  /** The loop of `cpu_best_move` over the listed components. */
  method KeepBest(g: Grid, components: seq<seq<Pos>>, memo: map<Board, int>)
    returns (bestMove: seq<Pos>, memo': map<Board, int>)
    requires g.Valid() && ListsMoves(g.board, components) && MemoSound(memo)
    ensures MemoSound(memo')
    ensures |components| == 0 ==> bestMove == []
    ensures |components| > 0 ==> bestMove == components[ArgMax(Totals(g.board))]
  {
    ghost var b := g.board;
    ghost var totals := Totals(b);
    bestMove := [];
    var bestScore := 0;
    ghost var bestIdx := -1;
    memo' := memo;
    for i := 0 to |components|
      invariant g.board == b
      invariant MemoSound(memo')
      invariant Keep(totals, i, Finite(0)) == (Finite(bestScore), bestIdx)
      invariant -1 <= bestIdx < i
      invariant bestIdx == -1 ==> bestMove == []
      invariant bestIdx >= 0 ==> bestMove == components[bestIdx]
    {
      var comp := components[i];
      var total;
      total, memo' := MoveTotal(g, components, i, memo');
      if total > bestScore {
        bestScore := total;
        bestMove := comp;
        bestIdx := i;
      }
    }
    if |components| > 0 {
      KeptBest(g.board);
    }
  }
}
