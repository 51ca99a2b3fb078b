/** The single-player search of the later program: `dp_best_score`, which
    takes the memo dictionary as an argument and also stores 0 for a board
    with no move left, and `cpu_best_move`, which evaluates every removable
    component, sorts the `(total, component)` pairs with the descending merge
    sort and returns the head with its immediate score and its total. */
module SameGameEnhanced {
  import opened Board
  import opened Transforms
  import opened Scan
  import opened Ranking
  import opened Ordering
  import opened Search
  import opened GridADT

  /** `dp_best_score`: on a memo hit the stored value; on a finished game 0;
      otherwise the largest `size² + future`. Either way the value computed
      is stored under the board. */
  method DpBestScore(g: Grid, memo: map<Board, int>) returns (score: int, memo': map<Board, int>)
    requires g.Valid() && MemoSound(memo)
    ensures score == BestScore(g.board) && score >= 0
    ensures MemoSound(memo')
    ensures g.board in memo' && memo'[g.board] == score
    decreases OccupiedCount(g.board), 3
  {
    var state := g.board;
    BestScoreNonNegative(state);
    if state in memo {
      return memo[state], memo;
    }
    var over := g.IsGameOver();
    TerminalIffNoMoves(state);
    BestScoreIsMaxTotal(state);
    if over {
      StoreBest(memo, state, 0);
      return 0, memo[state := 0];
    }
    var components := g.AllComponents();
    score, memo' := BestTotal(g, components, memo);
    StoreBest(memo', state, score);
    memo' := memo'[state := score];
  }

  /** The scan loop of `dp_best_score`: `max_score` starts at 0 and is
      replaced by each strictly larger total. */
  method BestTotal(g: Grid, components: seq<seq<Pos>>, memo: map<Board, int>)
    returns (maxScore: int, memo': map<Board, int>)
    requires g.Valid() && ListsMoves(g.board, components) && |components| > 0
    requires MemoSound(memo)
    ensures maxScore == BestScore(g.board)
    ensures MemoSound(memo')
    decreases OccupiedCount(g.board), 2
  {
    ghost var b := g.board;
    maxScore := 0;
    memo' := memo;
    for i := 0 to |components|
      invariant g.board == b
      invariant MemoSound(memo')
      invariant Keep(Totals(b), i, Finite(0)).0 == Finite(maxScore)
    {
      maxScore, memo' := TotalStep(g, components, i, maxScore, memo');
    }
    KeptBest(b);
  }

  /** One turn of the scan loop: `if total > max_score: max_score = total`
      for the `i`-th listed component. */
  method TotalStep(g: Grid, components: seq<seq<Pos>>, i: int, maxScore: int, memo: map<Board, int>)
    returns (maxScore': int, memo': map<Board, int>)
    requires g.Valid() && ListsMoves(g.board, components) && 0 <= i < |components|
    requires MemoSound(memo) && Keep(Totals(g.board), i, Finite(0)).0 == Finite(maxScore)
    ensures Keep(Totals(g.board), i + 1, Finite(0)).0 == Finite(maxScore')
    ensures MemoSound(memo')
    decreases OccupiedCount(g.board), 1
  {
    var total;
    total, memo' := FutureTotal(g, components, i, memo);
    KeepStep(Totals(g.board), i, Finite(0), Finite(maxScore));
    maxScore' := maxScore;
    if total > maxScore {
      maxScore' := total;
    }
  }

  /** `len(comp) ** 2 + dp_best_score(temp, memo)` for the `i`-th listed
      component, simulated on a copy. */
  method FutureTotal(g: Grid, components: seq<seq<Pos>>, i: int, memo: map<Board, int>)
    returns (total: int, memo': map<Board, int>)
    requires g.Valid() && ListsMoves(g.board, components) && 0 <= i < |components|
    requires MemoSound(memo)
    ensures total == Totals(g.board)[i] && total >= 4
    ensures MemoSound(memo')
    decreases OccupiedCount(g.board), 0
  {
    ListedMove(g.board, components[i], i);
    BestScoreNonNegative(g.board);
    var temp := g.Simulate(components[i]);
    var future;
    future, memo' := DpBestScore(temp, memo);
    total := Gain(|components[i]|) + future;
  }

  /** `cpu_best_move`: with a fresh memo, pair every removable component
      with its achievable total, sort the pairs with the stable descending
      merge sort and take the head. No move gives `([], 0, 0)`; otherwise
      the first component in scan order with the best total, the points it
      scores at once, and that total. */
  method CpuBestMove(g: Grid) returns (best: seq<Pos>, immediate: int, total: int)
    requires g.Valid()
    ensures Moves(g.board) == [] ==> best == [] && immediate == 0 && total == 0
    ensures Moves(g.board) != [] ==>
      var k := ArgMax(Totals(g.board));
      && Elements(best) == Moves(g.board)[k] && |best| == |Moves(g.board)[k]|
      && immediate == Gain(|best|)
      && total == BestScore(g.board) == Totals(g.board)[k]
      && forall j | 0 <= j < k :: Totals(g.board)[j] < total
  {
    var memo: map<Board, int> := map[];
    var components := g.AllComponents();
    var candidates := Candidates(g, components, memo);
    if |candidates| == 0 {
      return [], 0, 0;
    }
    var sorted := MergeSortPairs(candidates);
    MergeSortFirst(candidates);
    assert Keys(candidates) == Totals(g.board);
    total, best := sorted[0].0, sorted[0].1;
    immediate := Gain(|best|);
    FirstBest(g.board);
    ListedMove(g.board, components[ArgMax(Totals(g.board))], ArgMax(Totals(g.board)));
  }

  /** The `components.append((total_achievable, comp))` loop. */
  method Candidates(g: Grid, components: seq<seq<Pos>>, memo: map<Board, int>)
    returns (candidates: seq<(int, seq<Pos>)>)
    requires g.Valid() && ListsMoves(g.board, components) && MemoSound(memo)
    ensures |candidates| == |components|
    ensures forall j | 0 <= j < |candidates| :: candidates[j] == (Totals(g.board)[j], components[j])
  {
    var memo' := memo;
    ghost var b := g.board;
    candidates := [];
    for i := 0 to |components|
      invariant g.board == b
      invariant MemoSound(memo')
      invariant |candidates| == i
      invariant forall j | 0 <= j < i :: candidates[j] == (Totals(g.board)[j], components[j])
    {
      var t;
      t, memo' := FutureTotal(g, components, i, memo');
      candidates := candidates + [(t, components[i])];
    }
  }
}
