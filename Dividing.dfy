/** `divide_board_regions` of the divide-and-conquer helpers: every
    removable component goes to the left or to the right half of the board,
    by majority of its cells relative to the middle column `cols / 2`, an
    exact tie going left. */
module Dividing {
  import opened Board
  import opened GridADT

  /** `sum(1 for r, c in comp if c < mid)`: the cells left of the middle. */
  function LeftCount(comp: seq<Pos>, mid: int): nat {
    if comp == [] then 0
    else LeftCount(comp[..|comp| - 1], mid) + (if comp[|comp| - 1].1 < mid then 1 else 0)
  }

  /** The cells in the middle column or right of it. */
  function RightCount(comp: seq<Pos>, mid: int): nat {
    if comp == [] then 0
    else RightCount(comp[..|comp| - 1], mid) + (if comp[|comp| - 1].1 >= mid then 1 else 0)
  }

  /** `left_count >= right_count` with `right_count = len(comp) - left_count`. */
  predicate GoesLeft(comp: seq<Pos>, mid: int) {
    LeftCount(comp, mid) >= |comp| - LeftCount(comp, mid)
  }

  /** The components that go left, in their input order. */
  function Lefts(comps: seq<seq<Pos>>, mid: int): seq<seq<Pos>> {
    if comps == [] then []
    else Lefts(comps[..|comps| - 1], mid) + (if GoesLeft(comps[|comps| - 1], mid) then [comps[|comps| - 1]] else [])
  }

  /** The components that go right, in their input order. */
  function Rights(comps: seq<seq<Pos>>, mid: int): seq<seq<Pos>> {
    if comps == [] then []
    else Rights(comps[..|comps| - 1], mid) + (if GoesLeft(comps[|comps| - 1], mid) then [] else [comps[|comps| - 1]])
  }

  /** The distribution loop of `divide_board_regions`: append each component
      to the left or to the right list. */
  method Divide(components: seq<seq<Pos>>, mid: int) returns (leftRegion: seq<seq<Pos>>, rightRegion: seq<seq<Pos>>)
    ensures leftRegion == Lefts(components, mid) && rightRegion == Rights(components, mid)
  {
    leftRegion, rightRegion := [], [];
    for i := 0 to |components|
      invariant leftRegion == Lefts(components[..i], mid) && rightRegion == Rights(components[..i], mid)
    {
      var comp := components[i];
      var leftCount := LeftCount(comp, mid);
      var rightCount := |comp| - leftCount;
      if leftCount >= rightCount {
        leftRegion := leftRegion + [comp];
      } else {
        rightRegion := rightRegion + [comp];
      }
      assert components[..i + 1][..i] == components[..i];
    }
    assert components[..|components|] == components;
  }

  /** `divide_board_regions(grid)`: the removable components of the board,
      in scan order, split at the middle column. */
  method DivideBoardRegions(g: Grid) returns (leftRegion: seq<seq<Pos>>, rightRegion: seq<seq<Pos>>)
    requires g.Valid()
    ensures exists comps | ListsMoves(g.board, comps) ::
      leftRegion == Lefts(comps, g.cols / 2) && rightRegion == Rights(comps, g.cols / 2)
  {
    var mid := g.cols / 2;
    var allComponents := g.AllComponents();
    leftRegion, rightRegion := Divide(allComponents, mid);
  }

  // ---------------------------------------------------------------------------
  // Properties

  /** Every cell is counted on exactly one side: `left_count + right_count`
      is the size of the component. */
  lemma {:induction false} CountsSplit(comp: seq<Pos>, mid: int)
    ensures LeftCount(comp, mid) + RightCount(comp, mid) == |comp|
  {
    if comp != [] {
      CountsSplit(comp[..|comp| - 1], mid);
    }
  }

  /** A component goes left exactly when at least as many of its cells lie
      left of the middle as in the middle column or right of it; an exact
      tie goes left. */
  lemma GoesLeftIff(comp: seq<Pos>, mid: int)
    ensures GoesLeft(comp, mid) <==> LeftCount(comp, mid) >= RightCount(comp, mid)
    ensures LeftCount(comp, mid) == RightCount(comp, mid) ==> GoesLeft(comp, mid)
  {
    CountsSplit(comp, mid);
  }

  /** A component lying wholly left of the middle goes left. */
  lemma {:induction false} AllLeftGoesLeft(comp: seq<Pos>, mid: int)
    requires forall k | 0 <= k < |comp| :: comp[k].1 < mid
    ensures LeftCount(comp, mid) == |comp| && GoesLeft(comp, mid)
  {
    if comp != [] {
      AllLeftGoesLeft(comp[..|comp| - 1], mid);
    }
  }

  /** A non-empty component lying wholly in the middle column or right of it
      goes right. */
  lemma {:induction false} AllRightGoesRight(comp: seq<Pos>, mid: int)
    requires comp != [] && forall k | 0 <= k < |comp| :: comp[k].1 >= mid
    ensures LeftCount(comp, mid) == 0 && !GoesLeft(comp, mid)
  {
    NoneLeft(comp, mid);
  }

  /** A component with no cell left of the middle counts none on the left. */
  lemma {:induction false} NoneLeft(comp: seq<Pos>, mid: int)
    requires forall k | 0 <= k < |comp| :: comp[k].1 >= mid
    ensures LeftCount(comp, mid) == 0
  {
    if comp != [] {
      NoneLeft(comp[..|comp| - 1], mid);
    }
  }

  /** The two lists together hold exactly the input components, each as
      often as in the input. */
  lemma {:induction false} DividePartitions(comps: seq<seq<Pos>>, mid: int)
    ensures multiset(Lefts(comps, mid)) + multiset(Rights(comps, mid)) == multiset(comps)
    ensures |Lefts(comps, mid)| + |Rights(comps, mid)| == |comps|
  {
    if comps != [] {
      var front, last := comps[..|comps| - 1], comps[|comps| - 1];
      DividePartitions(front, mid);
      assert comps == front + [last];
    }
  }

  /** The left list holds the components that go left, the right list the
      others. */
  lemma {:induction false} DivideMembers(comps: seq<seq<Pos>>, mid: int)
    ensures forall c :: c in Lefts(comps, mid) <==> c in comps && GoesLeft(c, mid)
    ensures forall c :: c in Rights(comps, mid) <==> c in comps && !GoesLeft(c, mid)
  {
    if comps != [] {
      var front, last := comps[..|comps| - 1], comps[|comps| - 1];
      DivideMembers(front, mid);
      assert comps == front + [last];
    }
  }

  /** Splitting a concatenation splits each part: each list keeps the
      input order of its components. */
  lemma {:induction false} DivideAppend(a: seq<seq<Pos>>, b: seq<seq<Pos>>, mid: int)
    ensures Lefts(a + b, mid) == Lefts(a, mid) + Lefts(b, mid)
    ensures Rights(a + b, mid) == Rights(a, mid) + Rights(b, mid)
    decreases |b|
  {
    if b == [] {
      assert a + b == a;
    } else {
      var front, last := b[..|b| - 1], b[|b| - 1];
      DivideAppend(a, front, mid);
      assert (a + b)[..|a + b| - 1] == a + front;
    }
  }
}
