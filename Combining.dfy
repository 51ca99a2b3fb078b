/** `best_move_from_left_and_right`: split the removable components into the
    left and right halves, ask the regional solver for the best move of
    each half, and keep the better of the two, the left one on a tie. */
module Combining {
  import opened Board
  import opened GridADT
  import opened Dividing

  /** The label returned beside the chosen move: "Left Region" or "Right Region". */
  datatype Side = LeftRegion | RightRegion

  /** The comparison of the two regional results. */
  function Combine<C>(left: (C, int), right: (C, int)): (r: (C, int, Side))
    ensures r.2 == LeftRegion <==> left.1 >= right.1
    ensures r.2 == LeftRegion ==> r.0 == left.0 && r.1 == left.1
    ensures r.2 == RightRegion ==> r.0 == right.0 && r.1 == right.1
    ensures r.1 >= left.1 && r.1 >= right.1 && (r.1 == left.1 || r.1 == right.1)
  {
    if left.1 >= right.1 then (left.0, left.1, LeftRegion) else (right.0, right.1, RightRegion)
  }

  /** `best_move_from_left_and_right(grid)`. `best_move_in_region` is not
      part of the program's shown code, so it is a parameter. */
  method BestMoveFromLeftAndRight(g: Grid, bestMoveInRegion: seq<seq<Pos>> -> (seq<Pos>, int))
    returns (comp: seq<Pos>, score: int, side: Side)
    requires g.Valid()
    ensures exists comps | ListsMoves(g.board, comps) ::
      (comp, score, side) == Combine(bestMoveInRegion(Lefts(comps, g.cols / 2)), bestMoveInRegion(Rights(comps, g.cols / 2)))
  {
    var leftRegion, rightRegion := DivideBoardRegions(g);
    ghost var comps :| ListsMoves(g.board, comps)
      && leftRegion == Lefts(comps, g.cols / 2) && rightRegion == Rights(comps, g.cols / 2);
    var r := Combine(bestMoveInRegion(leftRegion), bestMoveInRegion(rightRegion));
    comp, score, side := r.0, r.1, r.2;
  }
}
