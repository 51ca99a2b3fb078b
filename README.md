# Same Game move evaluation, modelled in Dafny

This project models the move-evaluation engine of a Same Game
(tile-elimination) puzzle. In this game a player removes a group of two or
more same-coloured, 4-connected blocks and scores the group's size squared.
Gravity then drops the remaining blocks, and the computer player looks for
the move with the best outcome. The model covers three parts:

- **The board primitives** (`Board`, `Transforms`, `Scan`, `GridADT`):
  - A board is a `seq<seq<Cell>>` with `Cell = Option<Color>`. The game object
    is the class `GridADT.Grid`, whose `board` field its methods update in
    place.
  - Flood fill is `Grid.Dfs` / `Grid.GetComponent`. Their result is tied to
    the ghost set `Board.Component`: the cells reachable from the start along
    same-coloured 4-adjacent paths.
  - Removal is `Grid.RemoveComponent`, stack-based vertical gravity is
    `Grid.ApplyGravity`, the game-over checks are `Grid.IsGameOver` and
    `Grid.IsGameOverEveryCell`, `copy_grid` is `Grid.Copy`, and the horizontal
    compaction loop is `Grid.Compress`.
  - Each method is specified by a function of the board (`RemoveCells`,
    `Gravity`, `Compact`, `Terminal`) whose properties are proved as lemmas.
  - The enumeration of removable components is the row-major scan with a
    visited set. `Scan.Moves` is the specification: the removable components
    in scan order, all of them, each once.
- **The exact memoized searches**:
  - `Search.BestScore`, the single-player best score.
  - `Search.ScoreDifference`, the turn-aware score difference between the
    player to move and the opponent.
  - The methods of `EnhancedVersion`, `SameGameEnhanced` and
    `DifferenceSearch`, which compute these values with a memo map threaded
    through the calls and are proved to return them.
  - The move selectors (`cpu_best_move` in its three forms). Each picks the
    first component in scan order that reaches the best value. One of them
    ranks the candidates with a stable descending merge sort (`Ordering`).
- **The divide / conquer / combine helpers** (`Dividing`, `Conquering`,
  `Combining`, `DynamicProgramming`):
  - the left/right majority split, with a tie going left;
  - the per-region evaluation, restricted to components lying wholly in the
    region's columns;
  - the left-wins-ties combination of two regional results;
  - the driver that conquers every column region with one shared memo.

Every search recursion terminates on the number of occupied cells. A move
removes at least two of them, and gravity keeps the count
(`Transforms.MoveLowersCount`, `Scan.MovesShrink`).

`get_component` in `EnhancedVerison.py` and `SameGame-Enhanced.py` reads
`grid.board[r][c]` before any bounds check. The model follows the code:
`GetComponent` requires an in-bounds start. Its callers in the modelled core
are the scans, which never pass any other. Of the four console callers, left
out as I/O, three pass raw input unchecked (EnhancedVerison.py:301 and :330,
SameGame-Enhanced.py:306); `single_player` in SameGame-Enhanced.py checks the
bounds first (lines 269-271).

## Model

| member | source | states |
|---|---|---|
| Board.Neighbors | EnhancedVerison.py:77-78 | exactly four neighbour positions, and a position is among them iff it is 4-adjacent to `(r, c)` |
| Board.ComponentMembers | EnhancedVerison.py:88-98 | every cell of a component is on the board, is occupied and has the start cell's colour |
| Board.ComponentHasStart | EnhancedVerison.py:103-111 | the component of an occupied cell contains that cell |
| Board.ComponentClosed | EnhancedVerison.py:97-101 | the component is closed: every in-bounds neighbour of a member with the same colour is a member |
| Board.ComponentLeast | EnhancedVerison.py:88-101 | the component is the least closed set containing the start, so nothing beyond the connected cells is taken |
| Board.ComponentShared | EnhancedVerison.py:88-101 | any member of a component has the same component, so marking a component visited loses no other component |
| Transforms.SettleKeepsOccupants | EnhancedVerison.py:134-144 | gravity keeps a column's occupied cells and their top-to-bottom order |
| Transforms.SettlePacked | EnhancedVerison.py:134-144 | after gravity the occupied cells fill the bottom rows of the column, with empty cells above them |
| Transforms.SettleIdempotent | EnhancedVerison.py:134-144 | settling a settled column changes nothing |
| Transforms.GravitySettlesColumns | SameGame-Enhanced.py:88-96 | the board after gravity has the same shape, and every column is the settled original column with the same occupied cells |
| Transforms.GravityIdempotent | EnhancedVerison.py:134-144 | a second application of gravity changes nothing |
| Transforms.GravityKeepsCount | EnhancedVerison.py:134-144 | gravity keeps the number of occupied cells |
| Transforms.MoveLowersCount | EnhancedVerison.py:120-122 | removing a set holding an occupied cell and then applying gravity strictly lowers the occupied count |
| Transforms.NonEmptyColumnsExact | Conquering_Strategy.py:72-78 | the columns the compaction keeps are exactly those holding a block, in increasing order |
| Transforms.CompactColumns | Conquering_Strategy.py:71-83 | after compaction, with k the number of non-empty columns, columns 0..k-1 are those columns in their original order and contents, and the rest are empty |
| Transforms.CompactIdempotent | Conquering_Strategy.py:71-83 | compacting a compacted board changes nothing |
| Transforms.CollapseIdempotent | Conquering_Strategy.py:71-83 | gravity followed by compaction is idempotent |
| Scan.MovesSound | SameGame-Enhanced.py:170-180 | every listed move is a full same-colour component of two or more cells, and no move is listed twice |
| Scan.MovesComplete | SameGame-Enhanced.py:170-180 | every component of two or more cells is listed |
| Scan.MovesDisjoint | SameGame-Enhanced.py:170-180 | two listed moves share no cell |
| Scan.ScanVisitsOccupied | SameGame-Enhanced.py:170-180 | at the end of the scan the visited set is exactly the occupied cells |
| Scan.TerminalIffNoMoves | SameGame-Enhanced.py:101-111 | the game is over iff the scan finds no removable component |
| Scan.NextSmaller | SameGame-Enhanced.py:181-183 | playing a move strictly lowers the occupied count |
| Scan.MovesShrink | EnhancedVerison.py:242-247 | each listed move is a move, and the board after it has fewer occupied cells |
| Search.GainOfMove | EnhancedVerison.py:247 | a move scores at least 4 points |
| Search.BestScoreNonNegative | EnhancedVerison.py:218-251 | the best score is at least 0, and every move's total is at least 4 |
| Search.BestScoreIsMaxTotal | EnhancedVerison.py:218-251 | with no move the best score is 0; otherwise it is at least every move's total and equals one of them |
| Search.ScoreDifferenceIsMax | Dynamic_Programming.py:17-33 | with no move the corrected difference is 0; otherwise it is the largest of `gain - V(next, other turn)` over the moves, with `V` the corrected score difference |
| Search.TurnIrrelevant | Dynamic_Programming.py:4-48 | the corrected difference does not depend on whose turn it is |
| Search.DifferenceIsAdvantage | Dynamic_Programming.py:35-48 | the corrected difference is the CPU-side minimax value, negated on the opponent's turn, so it is the negation of the minimum the opponent branch computes |
| Search.FirstBest | EnhancedVerison.py:257-282 | the first move with the best total reaches the best score, and every earlier move totals strictly less |
| Search.KeptBest | EnhancedVerison.py:240-248 | the scan from 0 with `max` ends on the best score, at the first move reaching it |
| Search.KeptDifference | Dynamic_Programming.py:21-30 | the scan from `-inf` with `max` ends on the corrected score difference |
| Ranking.ArgMaxIsFirstMax | EnhancedVerison.py:278-280 | the selected index holds the maximum, and every earlier entry is strictly smaller |
| Ranking.KeepIsFirstMax | SameGame-Enhanced.py:188-189 | a strict `>` scan over a prefix keeps its maximum and the first index reaching it |
| Ranking.KeepAll | Conquering_Strategy.py:24-35 | a strict `>` scan over a whole list ends on the maximum and the first index reaching it |
| Ordering.MergeLists | SameGame-Enhanced.py:116-136 | the merge loop returns the merge of the two lists: a permutation of their concatenation, non-increasing when both inputs are |
| Ordering.AppendRest | SameGame-Enhanced.py:128-134 | a tail loop appends exactly the remaining elements |
| Ordering.MergePermutes | EnhancedVerison.py:178-192 | the merge holds exactly the elements of both lists |
| Ordering.MergeSorted | SameGame-Enhanced.py:116-136 | merging two non-increasing lists gives a non-increasing list that starts with one of their heads |
| Ordering.MergeStable | SameGame-Enhanced.py:120-126 | among equal keys, the left list's elements come first and each list keeps its order |
| Ordering.MergeSortCorrect | EnhancedVerison.py:168-176 | merge sort is non-increasing on the key, a permutation, and stable |
| Ordering.MergeSortPairs | SameGame-Enhanced.py:138-146 | the method returns the merge sort of its input, which is sorted, a permutation and stable |
| Ordering.FirstOfStableSort | SameGame-Enhanced.py:223-225 | the head of any stable descending sort is the first input element with the largest key |
| Ordering.MergeSortFirst | SameGame-Enhanced.py:223-225 | the head of the merge sort is the first input element with the largest key |
| GridADT.Grid.constructor | EnhancedVerison.py:40-43 | a grid holding the given board |
| GridADT.Grid.Dfs | EnhancedVerison.py:88-101 | the visit adds only cells of the target component, reaches the start when it has the colour, and leaves every newly added cell's same-colour neighbours visited; the list has no repeat |
| GridADT.Grid.GetComponent | EnhancedVerison.py:103-111 | the list holds exactly the component's cells, each once, all with the start colour; it is empty iff the start cell is empty |
| GridADT.Grid.RemoveComponent | EnhancedVerison.py:120-122 | exactly the listed cells become empty and every other cell is unchanged |
| GridADT.Grid.SetCell | EnhancedVerison.py:122 | one cell assignment changes that cell alone and keeps the grid `rows` x `cols` |
| GridADT.Grid.ColumnStack | EnhancedVerison.py:137-141 | the stack holds the column's occupied cells from top to bottom |
| GridADT.Grid.SettleColumn | EnhancedVerison.py:136-144 | the column becomes its settled form and every other column is unchanged |
| GridADT.Grid.ApplyGravity | EnhancedVerison.py:134-144 | the board becomes `Gravity` of the old board |
| GridADT.Grid.Copy | SameGame-Enhanced.py:154-157 | a fresh grid, equal cell for cell, so changing it leaves the source untouched |
| GridADT.Grid.AllComponents | SameGame-Enhanced.py:170-180 | the scan lists, in order and each without repeats, the cells of every removable component |
| GridADT.Grid.ScanCellStep | SameGame-Enhanced.py:174-180 | one turn of the scan on cell `(r, c)` moves the visited set and the list exactly as the scan specification does for that cell: an occupied unvisited cell adds its component to the visited set, and to the list when it has two or more cells |
| GridADT.Grid.IsGameOver | SameGame-Enhanced.py:101-111 | true iff no occupied cell lies in a same-colour component of two or more cells |
| GridADT.Grid.GameOverStep | SameGame-Enhanced.py:104-110 | one turn of `is_game_over` on cell `(r, c)`: the visited set grows as in the scan, and it reports a move exactly when the scan lists one there, which then has two or more cells |
| GridADT.Grid.IsGameOverEveryCell | EnhancedVerison.py:152-160 | the version that recomputes the component of every occupied cell: the same answer |
| GridADT.Grid.HasMoveAt | EnhancedVerison.py:156-158 | true iff the component of cell `(r, c)` has more than one cell |
| GridADT.Grid.MoveColumn | Conquering_Strategy.py:79-82 | the target column takes the source column's cells, the source column becomes empty, and the rest is unchanged |
| GridADT.Grid.Compress | Conquering_Strategy.py:71-83 | the board becomes its compaction: non-empty columns packed left in order |
| GridADT.Grid.CompressStep | Conquering_Strategy.py:73-83 | one turn of the compression loop keeps the compression invariant one column further: the first `write_col` columns are the non-empty columns read so far, in order, the columns between them and `read_col` are empty, and the rest is untouched |
| GridADT.Grid.Simulate | SameGame-Enhanced.py:181-183 | a fresh copy with the component removed and gravity applied; the grid itself is unchanged |
| EnhancedVersion.DpMaxScore | EnhancedVerison.py:218-251 | returns the best score (at least 0), keeps the memo correct, and stores the value when a move exists |
| EnhancedVersion.MaxTotal | EnhancedVerison.py:240-248 | the loop from 0 with `max` returns the best score |
| EnhancedVersion.MaxStep | EnhancedVerison.py:243-248 | one turn of the `max_score` loop: the running value after component `i` is the largest of 0 and the first `i + 1` totals |
| EnhancedVersion.MoveTotal | EnhancedVerison.py:243-247 | `size² + dp_max_score(next)` is that move's total, at least 4 |
| EnhancedVersion.CpuBestMove | EnhancedVerison.py:257-282 | empty iff no move exists; otherwise the cells of the first component in scan order whose total is the best score, each listed once, so its length is the move's size |
| EnhancedVersion.KeepBest | EnhancedVerison.py:259-280 | the strict `>` loop keeps the component at the first index with the best total |
| SameGameEnhanced.DpBestScore | SameGame-Enhanced.py:159-192 | returns the best score (0 on a finished game), and the memo then stores exactly that value under the board |
| SameGameEnhanced.BestTotal | SameGame-Enhanced.py:169-189 | the strict `>` loop from 0 returns the best score |
| SameGameEnhanced.TotalStep | SameGame-Enhanced.py:180-189 | one turn of the strict `>` scan: the running value after component `i` is the largest of 0 and the first `i + 1` totals |
| SameGameEnhanced.FutureTotal | SameGame-Enhanced.py:181-186 | the move's total, at least 4 |
| SameGameEnhanced.CpuBestMove | SameGame-Enhanced.py:197-228 | `([], 0, 0)` when no move exists; otherwise the first component in scan order with the best total, its immediate `size²`, and the best total |
| SameGameEnhanced.Candidates | SameGame-Enhanced.py:199-218 | one `(total, component)` pair per listed component, in scan order |
| DifferenceSearch.DpScoreDifference | Dynamic_Programming.py:4-48 | returns the corrected score difference for the player to move, keeps the memo correct, and stores the value under `(board, turn)` when a move exists |
| DifferenceSearch.BestDifference | Dynamic_Programming.py:20-33 | the loop from `-inf` with `max` returns the corrected score difference |
| DifferenceSearch.MoveDifference | Dynamic_Programming.py:23-30 | `gain - V(next, other turn)` for one move, with `V` the corrected score difference |
| DynamicProgramming.CpuBestMove | Dynamic_Programming.py:54-90 | one result per region, in region order, each the conquered value of its region under the corrected score difference, and the answer is `combine_results` of that list |
| Conquering.AllInRegionOfSet | Conquering_Strategy.py:19 | the per-cell column test holds iff every cell of the component lies in the region's columns |
| Conquering.ConquerRegion | Conquering_Strategy.py:4-37 | `(None, -inf)` iff no component lies wholly in the region; otherwise the best `gain - V(next)` over those components, with `V` the corrected score difference, and the cells of the first one reaching it, each listed once |
| Conquering.FilterRegion | Conquering_Strategy.py:15-20 | keeps, in order, exactly the components lying wholly in the region |
| Conquering.BestInRegion | Conquering_Strategy.py:24-35 | the strict `>` scan from `-inf` ends on the first best component of the region |
| Conquering.ScanConquers | Conquering_Strategy.py:24-37 | where the scan ends is what `conquer_region` promises |
| Conquering.EligibleExact | Conquering_Strategy.py:15-20 | a move is evaluated iff all its cells lie in the region |
| Conquering.EligibleIncreasing | Conquering_Strategy.py:17-20 | the evaluated moves keep the scan order |
| Conquering.RegionMoveInRegion | Conquering_Strategy.py:19 | each evaluated move lies in the region |
| Conquering.WholeBoardRegion | Conquering_Strategy.py:4-37 | a region of every column evaluates every move, and its value is the board's corrected score difference on the CPU's turn |
| Conquering.AllEligible | Conquering_Strategy.py:15-20 | when every move lies in the region, all of them are evaluated |
| Dividing.Divide | Dividing_Strategy.py:8-15 | the loop puts each component in the left or the right list, as the majority rule says |
| Dividing.DivideBoardRegions | Dividing_Strategy.py:1-17 | the removable components in scan order, split at the middle column |
| Dividing.CountsSplit | Dividing_Strategy.py:9-10 | `left_count + right_count` is the size of the component |
| Dividing.GoesLeftIff | Dividing_Strategy.py:12-15 | a component goes left iff `left_count >= right_count`, so a tie goes left |
| Dividing.AllLeftGoesLeft | Dividing_Strategy.py:9-13 | a component wholly left of the middle goes left |
| Dividing.AllRightGoesRight | Dividing_Strategy.py:9-15 | a non-empty component wholly in the middle column or right of it goes right |
| Dividing.NoneLeft | Dividing_Strategy.py:9 | a component with no cell left of the middle has a left count of 0 |
| Dividing.DividePartitions | Dividing_Strategy.py:8-15 | every input component lands in exactly one list, as often as in the input |
| Dividing.DivideMembers | Dividing_Strategy.py:12-15 | the left list holds the components going left, the right list the others |
| Dividing.DivideAppend | Dividing_Strategy.py:8-17 | each list keeps the input order |
| Combining.Combine | Combining.py:11-14 | left, with its score and "Left Region", iff `left_score >= right_score`; otherwise right; the score is the larger of the two |
| Combining.BestMoveFromLeftAndRight | Combining.py:5-14 | the combination of the regional solver's answers for the left and right halves of the removable components |
| Counterexample.AsWrittenCountsOpponentGain | Dynamic_Programming.py:35-48 | on the one-row board R R G G the recurrence as written gives 8, while the true difference and the CPU-side minimax both give 0 |

## Left out

- The tkinter interface, console menus, display, instructions and print tracing are not modelled. They are I/O.
- Random board creation is not modelled. The board is an input of `Grid.constructor`.
- `sys.setrecursionlimit` is interpreter plumbing and is not modelled.
- The `float('-inf')` and `float('inf')` sentinels are the datatype `Ranking.ExtInt`.
- The helpers `divide_moves`, `get_all_components` and `get_all_valid_components` have no shown body. They are modelled as the row-major visited-cells scan of `dp_best_score` (`Grid.AllComponents`).
- `combine_results` and `best_move_in_region` have no shown body. They are function parameters of `DynamicProgramming.CpuBestMove` and `Combining.BestMoveFromLeftAndRight`.
- DynamicProgramming.CpuBestMove: the column regions its `divide_board_regions` returns are a parameter. That helper has no shown body there; the file's own `divide_board_regions` returns a pair of component lists, which is `Dividing.DivideBoardRegions`. The per-region results are returned beside the chosen component so that the contract can name them.
- DifferenceSearch.DpScoreDifference: follows the corrected recurrence, not the opponent branch as written (see Findings).
- DifferenceSearch.BestDifference: its value follows the corrected recurrence, so it differs from the code as written (on R R G G it is 0 where the code gives 8; see Findings).
- DifferenceSearch.MoveDifference: `gain - V(next, other turn)` uses the corrected recurrence for `V`, so it differs from the code as written (on R R G G it is 0 for either move where the code gives 8; see Findings).
- Conquering.ConquerRegion: the region value follows the corrected recurrence, so it differs from the code as written (see Findings).
- Conquering.WholeBoardRegion: the whole-board value it states is the corrected score difference, which differs from the code as written (see Findings).
- DynamicProgramming.CpuBestMove: the per-region values follow the corrected recurrence, so they differ from the code as written (see Findings).
- EnhancedVersion.DpMaxScore: the process-wide `memo` dictionary is a map passed in and returned. Its persistence across moves is not modelled.
- GridADT.Grid.GetComponent: requires an in-bounds start cell. The code indexes the board before any check, and every caller in the modelled core (the scans) passes an in-bounds cell; three of the four console callers, left out as I/O, pass raw input unchecked (EnhancedVerison.py:301, :330; SameGame-Enhanced.py:306), while `single_player` checks the bounds first (SameGame-Enhanced.py:269-271). Python's negative-index wrap-around is not modelled.
- Dividing.DivideBoardRegions: uses the grid's `cols` for the global `COLS`. In `SameGame-Enhanced.py` every grid is `ROWS` by `COLS`; the global bounds are likewise the grid's `rows` and `cols`.
- EnhancedVersion.CpuBestMove: the scan and the evaluation are two loops, the listing (`AllComponents`) and then the evaluation. The source interleaves them in one pass. Both visit the same components in the same order, and the evaluation does not change the grid.
- SameGameEnhanced.DpBestScore: the scan and the evaluation are two loops, the listing (`AllComponents`) and then the evaluation (`BestTotal`). The source interleaves them in one pass. Both visit the same components in the same order, and the evaluation does not change the grid.
- SameGameEnhanced.CpuBestMove: the scan and the evaluation are two loops, the listing (`AllComponents`) and then `Candidates`. The source interleaves them in one pass. Both visit the same components in the same order, and the evaluation does not change the grid.
- `copy.deepcopy` and `copy_grid` are both `Grid.Copy`. Inside a move's evaluation they are part of `Grid.Simulate`.
- `merge` in `EnhancedVerison.py` finishes with `extend`, while the other program uses two tail loops. Both are modelled by `Ordering.MergeLists`, whose tails are `Ordering.AppendRest`.
- The copies of these routines in `Interface.py`, `interface [DP+DC].py`, `interface[DP].py`, `Same game.py` and the combined helper files are not part of this model.

## Findings

| source | as written | input that shows it | evidently intended | confidence | as-written member | corrected member |
|---|---|---|---|---|---|---|
| Dynamic_Programming.py:35-48 | on the opponent's turn `dp_score_difference` returns `min(V(next, True) - gain)`. That is a value from the CPU's side, yet every caller, including the CPU branch's own `gain - future`, reads the result as the mover's difference. | the one-row board R R G G, CPU to move: as written the value is 8, although whichever pair the CPU takes, the opponent takes the other and the difference is 0 | both turns take the best of `gain - V(next, other turn)` (negamax), i.e. the negation of the minimum written | not executed | Counterexample.AsWrittenCountsOpponentGain | DifferenceSearch.DpScoreDifference |
