/** A one-row board on which the turn-aware recurrence as written and the
    score difference it is meant to compute disagree: `R R G G`. Whichever
    pair the CPU removes, the opponent removes the other, so both score 4
    and the difference is 0; the recurrence as written gives 8. */
module Counterexample {
  import opened Board
  import opened Transforms
  import opened Scan
  import opened Ranking
  import opened Search

  const Red: Cell := Some(R)
  const Green: Cell := Some(G)

  const Start: Board := [[Red, Red, Green, Green]]
  /** After the CPU removes the red pair. */
  const GreensLeft: Board := [[None, None, Green, Green]]
  /** After the CPU removes the green pair. */
  const RedsLeft: Board := [[Red, Red, None, None]]
  const Empty: Board := [[None, None, None, None]]

  const Reds: set<Pos> := {(0, 0), (0, 1)}
  const Greens: set<Pos> := {(0, 2), (0, 3)}

  /** A one-row board does not change under gravity. */
  lemma GravityOneRow(b: Board)
    requires IsBoard(b) && |b| == 1
    ensures Gravity(b) == b
  {
    forall c | 0 <= c < Width(b) ensures Column(Gravity(b), c) == Column(b, c) {
      GravityColumn(b, c);
      var col := Column(b, c);
      assert col == [b[0][c]];
      assert col[..0] == [];
      GravityShape(b);
    }
    GravityShape(b);
    ColumnsDetermineBoard(Gravity(b), b);
  }

  /** No same-coloured neighbour of the pair lies outside it. */
  lemma PairClosed(b: Board, c: int)
    requires IsBoard(b) && |b| == 1 && 0 <= c && c + 1 < Width(b)
    requires b[0][c].Some? && b[0][c + 1] == b[0][c]
    requires c > 0 ==> b[0][c - 1] != b[0][c]
    requires c + 2 < Width(b) ==> b[0][c + 2] != b[0][c]
    ensures ClosedUnder(b, {(0, c), (0, c + 1)}, b[0][c])
  {
    var P := {(0, c), (0, c + 1)};
    forall x, q | x in P && q in Neighbors(x.0, x.1) && InBounds(b, q) && At(b, q) == b[0][c]
      ensures q in P
    {
      assert q.0 == 0;
      assert q.1 == c - 1 || q.1 == c || q.1 == c + 1 || q.1 == c + 2;
    }
  }

  /** A pair of horizontally adjacent cells of one colour, fenced by board
      edges or other colours, is a component. */
  lemma PairComponent(b: Board, c: int, s: Pos)
    requires IsBoard(b) && |b| == 1 && 0 <= c && c + 1 < Width(b)
    requires b[0][c].Some? && b[0][c + 1] == b[0][c]
    requires c > 0 ==> b[0][c - 1] != b[0][c]
    requires c + 2 < Width(b) ==> b[0][c + 2] != b[0][c]
    requires s == (0, c) || s == (0, c + 1)
    ensures Component(b, s) == {(0, c), (0, c + 1)}
  {
    var P := {(0, c), (0, c + 1)};
    var color := b[0][c];
    assert SameColorPath(b, [(0, c)], color);
    assert SameColorPath(b, [(0, c), (0, c + 1)], color);
    assert (0, c) in Component(b, (0, c));
    assert (0, c + 1) in Component(b, (0, c));
    PairClosed(b, c);
    ComponentLeast(b, (0, c), P);
    if s == (0, c + 1) {
      ComponentShared(b, (0, c), s);
    }
  }

  /** One scan step on an occupied, unvisited cell of a pair component. */
  lemma ScanPair(b: Board, st: ScanState, c: int, s: Pos, P: set<Pos>, st': ScanState)
    requires IsBoard(b) && |b| == 1 && 0 <= c && c + 1 < Width(b)
    requires b[0][c].Some? && b[0][c + 1] == b[0][c]
    requires c > 0 ==> b[0][c - 1] != b[0][c]
    requires c + 2 < Width(b) ==> b[0][c + 2] != b[0][c]
    requires s == (0, c) && P == {(0, c), (0, c + 1)} && s !in st.visited
    requires st' == ScanState(st.visited + P, st.moves + [P])
    ensures ScanCell(b, st, s) == st'
  {
    PairComponent(b, c, s);
    assert |P| == 2;
  }

  /** A scan step over an empty or already visited cell changes nothing. */
  lemma ScanSkip(b: Board, st: ScanState, p: Pos)
    requires IsBoard(b) && InBounds(b, p)
    requires At(b, p) == None || p in st.visited
    ensures ScanCell(b, st, p) == st
  {
  }

  /** The scan of a one-row board of width four, cell by cell. */
  lemma MovesOneRow(b: Board, s1: ScanState, s2: ScanState, s3: ScanState, s4: ScanState)
    requires IsBoard(b) && |b| == 1 && Width(b) == 4
    requires s1 == ScanCell(b, ScanState({}, []), (0, 0))
    requires s2 == ScanCell(b, s1, (0, 1))
    requires s3 == ScanCell(b, s2, (0, 2))
    requires s4 == ScanCell(b, s3, (0, 3))
    ensures Moves(b) == s4.moves
  {
    var st0 := ScanState({}, []);
    assert ScanRow(b, st0, 0, 1) == s1;
    assert ScanRow(b, st0, 0, 2) == s2;
    assert ScanRow(b, st0, 0, 3) == s3;
    assert ScanRow(b, st0, 0, 4) == s4;
    assert ScanRows(b, 0) == st0;
    assert ScanRows(b, 1) == ScanRow(b, st0, 0, 4);
  }

  lemma MovesOfStart()
    ensures Moves(Start) == [Reds, Greens]
  {
    var b := Start;
    assert b[0][0] == b[0][1] == Red && b[0][2] == b[0][3] == Green;
    var s1 := ScanState(Reds, [Reds]);
    assert {} + Reds == Reds && [] + [Reds] == [Reds];
    ScanPair(b, ScanState({}, []), 0, (0, 0), Reds, s1);
    ScanSkip(b, s1, (0, 1));
    var s3 := ScanState(Reds + Greens, [Reds, Greens]);
    assert (0, 2) !in Reds && [Reds] + [Greens] == [Reds, Greens];
    ScanPair(b, s1, 2, (0, 2), Greens, s3);
    assert (0, 3) in s3.visited;
    ScanSkip(b, s3, (0, 3));
    MovesOneRow(b, s1, s1, s3, s3);
  }

  lemma MovesOfGreensLeft()
    ensures Moves(GreensLeft) == [Greens]
  {
    var b, st0 := GreensLeft, ScanState({}, []);
    assert b[0][0] == b[0][1] == None && b[0][2] == b[0][3] == Green;
    ScanSkip(b, st0, (0, 0));
    ScanSkip(b, st0, (0, 1));
    var s3 := ScanState(Greens, [Greens]);
    assert {} + Greens == Greens && [] + [Greens] == [Greens];
    ScanPair(b, st0, 2, (0, 2), Greens, s3);
    ScanSkip(b, s3, (0, 3));
    MovesOneRow(b, st0, st0, s3, s3);
  }

  lemma MovesOfRedsLeft()
    ensures Moves(RedsLeft) == [Reds]
  {
    var b, st0 := RedsLeft, ScanState({}, []);
    assert b[0][0] == b[0][1] == Red && b[0][2] == b[0][3] == None;
    var s1 := ScanState(Reds, [Reds]);
    assert {} + Reds == Reds && [] + [Reds] == [Reds];
    ScanPair(b, st0, 0, (0, 0), Reds, s1);
    ScanSkip(b, s1, (0, 1));
    ScanSkip(b, s1, (0, 2));
    ScanSkip(b, s1, (0, 3));
    MovesOneRow(b, s1, s1, s1, s1);
  }

  lemma MovesOfEmpty()
    ensures Moves(Empty) == []
  {
    var b, st0 := Empty, ScanState({}, []);
    assert b[0][0] == b[0][1] == b[0][2] == b[0][3] == None;
    ScanSkip(b, st0, (0, 0));
    ScanSkip(b, st0, (0, 1));
    ScanSkip(b, st0, (0, 2));
    ScanSkip(b, st0, (0, 3));
    MovesOneRow(b, st0, st0, st0, st0);
  }

  /** On a one-row board, removing `S` empties exactly the columns it names. */
  lemma RemoveOneRow(b: Board, S: set<Pos>, b': Board)
    requires IsBoard(b) && |b| == 1 && |b'| == 1 && |b'[0]| == |b[0]|
    requires forall c | 0 <= c < |b[0]| :: b'[0][c] == if (0, c) in S then None else b[0][c]
    ensures RemoveCells(b, S) == b'
  {
    assert RemoveCells(b, S)[0] == b'[0];
  }

  lemma NextBoards()
    ensures Next(Start, Reds) == GreensLeft && Next(Start, Greens) == RedsLeft
    ensures Next(GreensLeft, Greens) == Empty && Next(RedsLeft, Reds) == Empty
  {
    RemoveOneRow(Start, Reds, GreensLeft);
    RemoveOneRow(Start, Greens, RedsLeft);
    RemoveOneRow(GreensLeft, Greens, Empty);
    RemoveOneRow(RedsLeft, Reds, Empty);
    GravityOneRow(GreensLeft);
    GravityOneRow(RedsLeft);
    GravityOneRow(Empty);
  }

  /** Each pair has two cells, so removing it scores four. */
  lemma PairGains()
    ensures |Reds| == 2 && |Greens| == 2
    ensures Gain(|Reds|) == 4 && Gain(|Greens|) == 4
  {
    assert Reds == {(0, 0)} + {(0, 1)} && (0, 0) != (0, 1);
    assert Greens == {(0, 2)} + {(0, 3)} && (0, 2) != (0, 3);
  }

  /** A board whose only move is a pair that clears it: the player to move
      scores four. The corrected difference and the CPU-side minimax agree;
      the recurrence as written sees the opponent's four points as minus
      four from the CPU's side, and then subtracts them again. */
  lemma OnePairLeft(b: Board, P: set<Pos>, t: bool)
    requires IsBoard(b) && Moves(b) == [P] && |P| == 2
    requires Moves(Next(b, P)) == []
    ensures ScoreDifference(b, t) == 4
    ensures CpuAdvantage(b, false) == -4
    ensures ScoreDifferenceAsWritten(b, false) == -4
  {
    var e := Next(b, P);
    assert Gain(|P|) == 4;
    assert Diffs(b, t)[0] == 4 - ScoreDifference(e, !t);
    assert AdvantageOptions(b, false)[0] == CpuAdvantage(e, true) - 4;
    assert WrittenOptions(b, false)[0] == ScoreDifferenceAsWritten(e, true) - 4;
  }

  lemma MaxOfTwo(xs: seq<int>)
    requires |xs| == 2
    ensures MaxOf(xs) == Max(xs[0], xs[1])
  {
    assert xs[..1] == [xs[0]];
  }

  /** A board with two pairs whose removal each leaves one pair. */
  lemma TwoPairs(b: Board, P: set<Pos>, Q: set<Pos>)
    requires IsBoard(b) && Moves(b) == [P, Q] && |P| == 2 && |Q| == 2
    requires ScoreDifference(Next(b, P), false) == 4 && ScoreDifference(Next(b, Q), false) == 4
    requires CpuAdvantage(Next(b, P), false) == -4 && CpuAdvantage(Next(b, Q), false) == -4
    requires ScoreDifferenceAsWritten(Next(b, P), false) == -4 && ScoreDifferenceAsWritten(Next(b, Q), false) == -4
    ensures ScoreDifferenceAsWritten(b, true) == 8
    ensures ScoreDifference(b, true) == 0
    ensures CpuAdvantage(b, true) == 0
  {
    assert Gain(|P|) == 4 && Gain(|Q|) == 4;
    var ds, cs, ws := Diffs(b, true), AdvantageOptions(b, true), WrittenOptions(b, true);
    assert ds[0] == 0 && ds[1] == 0;
    assert cs[0] == 0 && cs[1] == 0;
    assert ws[0] == 8 && ws[1] == 8;
    MaxOfTwo(ds);
    MaxOfTwo(cs);
    MaxOfTwo(ws);
  }

  /** One pair is left after the CPU takes the other. */
  lemma AfterFirstPair(P: set<Pos>, left: Board, L: set<Pos>)
    requires (P == Reds && left == GreensLeft && L == Greens) || (P == Greens && left == RedsLeft && L == Reds)
    ensures var e := Next(Start, P);
      && ScoreDifference(e, false) == 4
      && CpuAdvantage(e, false) == -4
      && ScoreDifferenceAsWritten(e, false) == -4
  {
    NextBoards();
    if P == Reds { MovesOfGreensLeft(); } else { MovesOfRedsLeft(); }
    MovesOfEmpty();
    PairGains();
    OnePairLeft(left, L, false);
  }

  /** The finding: on `R R G G` with the CPU to move, the recurrence as
      written returns 8 where the true score difference is 0. */
  lemma AsWrittenCountsOpponentGain()
    ensures ScoreDifferenceAsWritten(Start, true) == 8
    ensures ScoreDifference(Start, true) == 0
    ensures CpuAdvantage(Start, true) == 0
  {
    MovesOfStart();
    AfterFirstPair(Reds, GreensLeft, Greens);
    AfterFirstPair(Greens, RedsLeft, Reds);
    PairGains();
    TwoPairs(Start, Reds, Greens);
  }
}
