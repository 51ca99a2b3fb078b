/** `conquer_region`: the best move among the removable components whose
    cells all lie in a given list of columns, valued by the turn-aware
    search as `size² - V(next, opponent's turn)`. The horizontal compaction
    loop of the same file is `GridADT.Grid.Compress`. */
module Conquering {
  import opened Board
  import opened Transforms
  import opened Scan
  import opened Ranking
  import opened Search
  import opened GridADT
  import opened DifferenceSearch

  /** Every cell of a component lies in one of the region's columns. */
  ghost predicate InRegion(C: set<Pos>, cols: seq<int>) {
    forall p | p in C :: p.1 in cols
  }

  /** `all(c in region_cols for r, c in comp)`. */
  predicate AllInRegion(comp: seq<Pos>, cols: seq<int>) {
    forall k | 0 <= k < |comp| :: comp[k].1 in cols
  }

  /** The indices, in order, of the moves among the first `n` whose cells
      all lie in the region. */
  ghost function Eligible(moves: seq<set<Pos>>, cols: seq<int>, n: nat): (e: seq<int>)
    requires n <= |moves|
    ensures forall j | 0 <= j < |e| :: 0 <= e[j] < n
  {
    if n == 0 then []
    else Eligible(moves, cols, n - 1) + (if InRegion(moves[n - 1], cols) then [n - 1] else [])
  }

  /** The region's moves, as indices into `Moves(b)`. */
  ghost function RegionMoves(b: Board, cols: seq<int>): (e: seq<int>)
    requires IsBoard(b)
    ensures forall j | 0 <= j < |e| :: 0 <= e[j] < |Moves(b)|
  {
    Eligible(Moves(b), cols, |Moves(b)|)
  }

  /** The CPU-turn differences of the moves at the indices `e`. */
  ghost function Picked(b: Board, e: seq<int>): (ds: seq<int>)
    requires IsBoard(b) && forall j | 0 <= j < |e| :: 0 <= e[j] < |Moves(b)|
    ensures |ds| == |e|
  {
    seq(|e|, j requires 0 <= j < |e| => Diffs(b, true)[e[j]])
  }

  /** The value of each region move for the CPU: its difference on the CPU's turn. */
  ghost function RegionDiffs(b: Board, cols: seq<int>): (ds: seq<int>)
    requires IsBoard(b)
    ensures |ds| == |RegionMoves(b, cols)|
  {
    Picked(b, RegionMoves(b, cols))
  }

  /** The best value over the region's moves, `-inf` when there is none. */
  ghost function RegionValue(b: Board, cols: seq<int>): ExtInt
    requires IsBoard(b)
  {
    if RegionMoves(b, cols) == [] then NegInf else Finite(MaxOf(RegionDiffs(b, cols)))
  }

  /** What `conquer_region` promises for the region `cols`: the best value
      (`-inf` exactly when no component lies in the region), no component
      exactly when there is none, and otherwise the first region move, in
      scan order, reaching the best value. */
  ghost predicate Conquered(b: Board, cols: seq<int>, res: (Option<seq<Pos>>, ExtInt))
    requires IsBoard(b)
  {
    && res.1 == RegionValue(b, cols)
    && (res.0.None? <==> RegionMoves(b, cols) == [])
    && (res.0.Some? ==>
          var k := ArgMax(RegionDiffs(b, cols));
          && Elements(res.0.value) == Moves(b)[RegionMoves(b, cols)[k]]
          && NoDup(res.0.value)
          && InRegion(Elements(res.0.value), cols)
          && forall j | 0 <= j < k :: RegionDiffs(b, cols)[j] < res.1.n)
  }

  /** A listed component lies in the region exactly when its cell set does. */
  lemma AllInRegionOfSet(comp: seq<Pos>, C: set<Pos>, cols: seq<int>)
    requires Elements(comp) == C
    ensures AllInRegion(comp, cols) <==> InRegion(C, cols)
  {
    if AllInRegion(comp, cols) {
      forall p | p in C ensures p.1 in cols {
        var k :| 0 <= k < |comp| && comp[k] == p;
      }
    }
  }

  /** The component at index `k` of a list, none for an index outside it
      (the `-1` a scan that kept nothing ends on). */
  function Chosen(comps: seq<seq<Pos>>, k: int): Option<seq<Pos>> {
    if 0 <= k < |comps| then Some(comps[k]) else None
  }

  /** `conquer_region(grid, region_cols, memo)`. */
  method ConquerRegion(g: Grid, regionCols: seq<int>, memo: map<(Board, bool), int>)
    returns (bestComponent: Option<seq<Pos>>, bestValue: ExtInt, memo': map<(Board, bool), int>)
    requires g.Valid() && DiffMemoSound(memo)
    ensures Conquered(g.board, regionCols, (bestComponent, bestValue))
    ensures DiffMemoSound(memo')
  {
    var components := g.AllComponents();
    var regionComponents := FilterRegion(g.board, components, regionCols);
    ghost var bestIdx;
    bestComponent, bestValue, memo', bestIdx :=
      BestInRegion(g, regionComponents, RegionMoves(g.board, regionCols), RegionDiffs(g.board, regionCols), memo);
    ScanConquers(g.board, regionCols, components, regionComponents, bestComponent, bestValue, bestIdx);
  }

  /** The filtering loop: keep, in order, the components whose every cell's
      column is one of the region's. */
  method FilterRegion(ghost b: Board, components: seq<seq<Pos>>, regionCols: seq<int>)
    returns (regionComponents: seq<seq<Pos>>)
    requires IsBoard(b) && ListsMoves(b, components)
    ensures |regionComponents| == |RegionMoves(b, regionCols)|
    ensures forall j | 0 <= j < |regionComponents| ::
      regionComponents[j] == components[RegionMoves(b, regionCols)[j]]
  {
    regionComponents := [];
    for i := 0 to |components|
      invariant |regionComponents| == |Eligible(Moves(b), regionCols, i)|
      invariant forall j | 0 <= j < |regionComponents| ::
        regionComponents[j] == components[Eligible(Moves(b), regionCols, i)[j]]
    {
      AllInRegionOfSet(components[i], Moves(b)[i], regionCols);
      if AllInRegion(components[i], regionCols) {
        regionComponents := regionComponents + [components[i]];
      }
    }
  }

  /** The evaluation loop: `best_value` starts at `-inf` and is replaced,
      with its component, by each strictly larger `gain - future`. The
      components evaluated are the listed ones at the indices `e`; the scan
      ends where `Keep` over their differences ends. */
  method BestInRegion(g: Grid, regionComponents: seq<seq<Pos>>, ghost e: seq<int>, ghost diffs: seq<int>,
                      memo: map<(Board, bool), int>)
    returns (bestComponent: Option<seq<Pos>>, bestValue: ExtInt, memo': map<(Board, bool), int>, ghost bestIdx: int)
    requires g.Valid() && DiffMemoSound(memo) && |regionComponents| == |e| == |diffs|
    requires forall j {:trigger regionComponents[j]} | 0 <= j < |e| ::
      ListsMove(g.board, regionComponents[j], e[j]) && diffs[j] == Diffs(g.board, true)[e[j]]
    ensures Keep(diffs, |diffs|, NegInf) == (bestValue, bestIdx)
    ensures -1 <= bestIdx < |e|
    ensures bestComponent == Chosen(regionComponents, bestIdx)
    ensures DiffMemoSound(memo')
  {
    bestComponent := None;
    bestValue := NegInf;
    bestIdx := -1;
    memo' := memo;
    ghost var b := g.board;
    for j := 0 to |regionComponents|
      invariant g.board == b
      invariant DiffMemoSound(memo')
      invariant Keep(diffs, j, NegInf) == (bestValue, bestIdx)
      invariant -1 <= bestIdx < j
      invariant bestComponent == Chosen(regionComponents, bestIdx)
    {
      var comp := regionComponents[j];
      var value;
      value, memo' := MoveDifference(g, comp, e[j], memo', true);
      if bestValue.NegInf? || value > bestValue.n {
        bestValue := Finite(value);
        bestComponent := Some(comp);
        bestIdx := j;
      }
    }
  }

  /** Where the evaluation scan ends: what `conquer_region` promises. */
  lemma ScanConquers(b: Board, cols: seq<int>, components: seq<seq<Pos>>, regionComponents: seq<seq<Pos>>,
                     best: Option<seq<Pos>>, value: ExtInt, k: int)
    requires IsBoard(b) && ListsMoves(b, components)
    requires |regionComponents| == |RegionMoves(b, cols)|
    requires forall j | 0 <= j < |regionComponents| :: regionComponents[j] == components[RegionMoves(b, cols)[j]]
    requires Keep(RegionDiffs(b, cols), |regionComponents|, NegInf) == (value, k)
    requires best == Chosen(regionComponents, k)
    requires -1 <= k < |regionComponents|
    ensures Conquered(b, cols, (best, value))
  {
    if |regionComponents| > 0 {
      KeepAll(RegionDiffs(b, cols), NegInf);
      ArgMaxIsFirstMax(RegionDiffs(b, cols));
      RegionMoveInRegion(b, cols, k);
    }
  }

  // ---------------------------------------------------------------------------
  // Properties

  /** The eligible indices are exactly the moves lying in the region. */
  lemma {:induction false} EligibleExact(moves: seq<set<Pos>>, cols: seq<int>, n: nat)
    requires n <= |moves|
    ensures forall i :: i in Eligible(moves, cols, n) <==> 0 <= i < n && InRegion(moves[i], cols)
  {
    if n > 0 {
      EligibleExact(moves, cols, n - 1);
    }
  }

  /** The eligible indices come in strictly increasing order. */
  lemma {:induction false} EligibleIncreasing(moves: seq<set<Pos>>, cols: seq<int>, n: nat)
    requires n <= |moves|
    ensures forall j, k | 0 <= j < k < |Eligible(moves, cols, n)| :: Eligible(moves, cols, n)[j] < Eligible(moves, cols, n)[k]
  {
    if n > 0 {
      EligibleIncreasing(moves, cols, n - 1);
    }
  }

  /** Each region move lies in the region. */
  lemma RegionMoveInRegion(b: Board, cols: seq<int>, j: int)
    requires IsBoard(b) && 0 <= j < |RegionMoves(b, cols)|
    ensures InRegion(Moves(b)[RegionMoves(b, cols)[j]], cols)
  {
    EligibleExact(Moves(b), cols, |Moves(b)|);
    assert RegionMoves(b, cols)[j] in Eligible(Moves(b), cols, |Moves(b)|);
  }

  /** A region holding every column of the board admits every move, so
      conquering it values the whole board: its best value is the score
      difference of the board on the CPU's turn. */
  lemma WholeBoardRegion(b: Board, cols: seq<int>)
    requires IsBoard(b) && forall c | 0 <= c < Width(b) :: c in cols
    ensures RegionMoves(b, cols) == seq(|Moves(b)|, i => i)
    ensures RegionDiffs(b, cols) == Diffs(b, true)
    ensures RegionValue(b, cols) == if Moves(b) == [] then NegInf else Finite(ScoreDifference(b, true))
  {
    forall i | 0 <= i < |Moves(b)| ensures InRegion(Moves(b)[i], cols) {
      MovesShrink(b, i);
      MoveCellsOccupied(b, Moves(b)[i]);
    }
    AllEligible(Moves(b), cols, |Moves(b)|);
  }

  /** When every move lies in the region, the first `n` indices are all eligible. */
  lemma {:induction false} AllEligible(moves: seq<set<Pos>>, cols: seq<int>, n: nat)
    requires n <= |moves|
    requires forall i | 0 <= i < |moves| :: InRegion(moves[i], cols)
    ensures Eligible(moves, cols, n) == seq(n, i => i)
  {
    if n > 0 {
      AllEligible(moves, cols, n - 1);
    }
  }
}
