/** The row-major component scan that every search in the source performs:
    walk the cells top to bottom and left to right, flood-fill each occupied
    cell not yet visited, mark the whole component visited, and keep it when
    it has more than one cell. `Moves(b)` is the list that scan produces. */
module Scan {
  import opened Board
  import opened Transforms

  datatype ScanState = ScanState(visited: set<Pos>, moves: seq<set<Pos>>)

  /** A removable component: at least two cells, and the component of each of them. */
  ghost predicate IsMove(b: Board, C: set<Pos>)
    requires IsBoard(b)
  {
    |C| > 1 && forall p | p in C :: Component(b, p) == C
  }

  ghost function ScanCell(b: Board, st: ScanState, p: Pos): ScanState
    requires IsBoard(b) && InBounds(b, p)
  {
    if At(b, p).Some? && p !in st.visited then
      var C := Component(b, p);
      ScanState(st.visited + C, if |C| > 1 then st.moves + [C] else st.moves)
    else st
  }

  /** The scan state after the first `c` cells of row `r`, starting from `st`. */
  ghost function ScanRow(b: Board, st: ScanState, r: int, c: nat): ScanState
    requires IsBoard(b) && 0 <= r < |b| && c <= Width(b)
  {
    if c == 0 then st else ScanCell(b, ScanRow(b, st, r, c - 1), (r, c - 1))
  }

  /** The scan state after the first `r` rows. */
  ghost function ScanRows(b: Board, r: nat): ScanState
    requires IsBoard(b) && r <= |b|
  {
    if r == 0 then ScanState({}, []) else ScanRow(b, ScanRows(b, r - 1), r - 1, Width(b))
  }

  /** The removable components of `b` in the order the scan meets them. */
  ghost function Moves(b: Board): seq<set<Pos>>
    requires IsBoard(b)
  {
    ScanRows(b, |b|).moves
  }

  /** The cells the scan has passed when it stands at `(r, c)`. */
  predicate Before(p: Pos, r: int, c: int) {
    p.0 < r || (p.0 == r && p.1 < c)
  }

  ghost predicate ScanInv(b: Board, st: ScanState, r: int, c: int)
    requires IsBoard(b)
  {
    && (forall x | x in st.visited :: InBounds(b, x) && At(b, x).Some?)
    && (forall x, y | x in st.visited && y in Component(b, x) :: y in st.visited)
    && (forall x | x in st.visited && |Component(b, x)| > 1 :: Component(b, x) in st.moves)
    && (forall i | 0 <= i < |st.moves| :: IsMove(b, st.moves[i]))
    && (forall i, y | 0 <= i < |st.moves| && y in st.moves[i] :: y in st.visited)
    && (forall i, j | 0 <= i < j < |st.moves| :: st.moves[i] != st.moves[j])
    && (forall p | InBounds(b, p) && Before(p, r, c) && At(b, p).Some? :: p in st.visited)
  }

  /** What flood-filling from an unvisited occupied cell contributes. */
  lemma FreshComponent(b: Board, st: ScanState, p: Pos)
    requires IsBoard(b) && InBounds(b, p) && At(b, p).Some? && p !in st.visited
    requires forall i, y | 0 <= i < |st.moves| && y in st.moves[i] :: y in st.visited
    ensures p in Component(b, p)
    ensures forall x | x in Component(b, p) :: InBounds(b, x) && At(b, x).Some? && Component(b, x) == Component(b, p)
    ensures forall i | 0 <= i < |st.moves| :: st.moves[i] != Component(b, p)
  {
    var C := Component(b, p);
    ComponentHasStart(b, p);
    forall x | x in C ensures InBounds(b, x) && At(b, x).Some? && Component(b, x) == C {
      ComponentMembers(b, p, x);
      ComponentShared(b, p, x);
    }
    forall i | 0 <= i < |st.moves| ensures st.moves[i] != C {
      assert p !in st.moves[i];
    }
  }

  /** The cells already passed stay covered when the scan advances one cell. */
  lemma AdvanceCovered(b: Board, V: set<Pos>, V': set<Pos>, r: int, c: int)
    requires IsBoard(b) && InBounds(b, (r, c)) && V <= V'
    requires At(b, (r, c)).Some? ==> (r, c) in V'
    requires forall q | InBounds(b, q) && Before(q, r, c) && At(b, q).Some? :: q in V
    ensures forall q | InBounds(b, q) && Before(q, r, c + 1) && At(b, q).Some? :: q in V'
  {
    forall q | InBounds(b, q) && Before(q, r, c + 1) && At(b, q).Some? ensures q in V' {
      if q != (r, c) {
        assert Before(q, r, c);
      }
    }
  }

  /** Adding a whole component keeps `visited` a union of components whose
      removable ones are all listed. */
  lemma AddVisited(b: Board, V: set<Pos>, M: seq<set<Pos>>, C: set<Pos>)
    requires IsBoard(b)
    requires forall x | x in C :: InBounds(b, x) && At(b, x).Some? && Component(b, x) == C
    requires forall x | x in V :: InBounds(b, x) && At(b, x).Some?
    requires forall x, y | x in V && y in Component(b, x) :: y in V
    requires forall x | x in V && |Component(b, x)| > 1 :: Component(b, x) in M
    ensures var M' := if |C| > 1 then M + [C] else M;
      && (forall x | x in V + C :: InBounds(b, x) && At(b, x).Some?)
      && (forall x, y | x in V + C && y in Component(b, x) :: y in V + C)
      && (forall x | x in V + C && |Component(b, x)| > 1 :: Component(b, x) in M')
  {
    var M' := if |C| > 1 then M + [C] else M;
    forall x, y | x in V + C && y in Component(b, x) ensures y in V + C {
      if x in C {
        assert Component(b, x) == C;
      }
    }
    forall x | x in V + C && |Component(b, x)| > 1 ensures Component(b, x) in M' {
      if x in C {
        assert Component(b, x) == C;
        assert M'[|M'| - 1] == C;
      } else {
        var i :| 0 <= i < |M| && M[i] == Component(b, x);
        assert M'[i] == M[i];
      }
    }
  }

  lemma AddMove(b: Board, V: set<Pos>, M: seq<set<Pos>>, C: set<Pos>, p: Pos)
    requires IsBoard(b) && p in C && p !in V
    requires forall x | x in C :: Component(b, x) == C
    requires forall i | 0 <= i < |M| :: IsMove(b, M[i])
    requires forall i, y | 0 <= i < |M| && y in M[i] :: y in V
    requires forall i, j | 0 <= i < j < |M| :: M[i] != M[j]
    ensures var M' := if |C| > 1 then M + [C] else M;
      && (forall i | 0 <= i < |M'| :: IsMove(b, M'[i]))
      && (forall i, y | 0 <= i < |M'| && y in M'[i] :: y in V + C)
      && (forall i, j | 0 <= i < j < |M'| :: M'[i] != M'[j])
  {
    var M' := if |C| > 1 then M + [C] else M;
    forall i | 0 <= i < |M| ensures M[i] != C {
      assert p !in M[i];
    }
    forall i | 0 <= i < |M'| ensures IsMove(b, M'[i]) && forall y | y in M'[i] :: y in V + C {
      if i < |M| {
        assert M'[i] == M[i];
      } else {
        assert M'[i] == C;
      }
    }
    forall i, j | 0 <= i < j < |M'| ensures M'[i] != M'[j] {
      if j < |M| {
        assert M'[i] == M[i] && M'[j] == M[j];
      } else {
        assert M'[i] == M[i] && M'[j] == C;
      }
    }
  }

  /** Assembles the invariant from its parts. */
  lemma ScanInvIntro(b: Board, V: set<Pos>, M: seq<set<Pos>>, r: int, c: int)
    requires IsBoard(b)
    requires forall x | x in V :: InBounds(b, x) && At(b, x).Some?
    requires forall x, y | x in V && y in Component(b, x) :: y in V
    requires forall x | x in V && |Component(b, x)| > 1 :: Component(b, x) in M
    requires forall i | 0 <= i < |M| :: IsMove(b, M[i])
    requires forall i, y | 0 <= i < |M| && y in M[i] :: y in V
    requires forall i, j | 0 <= i < j < |M| :: M[i] != M[j]
    requires forall q | InBounds(b, q) && Before(q, r, c) && At(b, q).Some? :: q in V
    ensures ScanInv(b, ScanState(V, M), r, c)
  {
  }

  lemma AddComponentInv(b: Board, st: ScanState, r: int, c: int)
    requires IsBoard(b) && InBounds(b, (r, c)) && ScanInv(b, st, r, c)
    requires At(b, (r, c)).Some? && (r, c) !in st.visited
    ensures ScanInv(b, ScanCell(b, st, (r, c)), r, c + 1)
  {
    var p := (r, c);
    var C := Component(b, p);
    var M' := if |C| > 1 then st.moves + [C] else st.moves;
    var V' := st.visited + C;
    FreshComponent(b, st, p);
    AddVisited(b, st.visited, st.moves, C);
    AddMove(b, st.visited, st.moves, C, p);
    AdvanceCovered(b, st.visited, V', r, c);
    ScanInvIntro(b, V', M', r, c + 1);
    assert ScanCell(b, st, p) == ScanState(V', M');
  }

  lemma ScanCellInv(b: Board, st: ScanState, r: int, c: int)
    requires IsBoard(b) && InBounds(b, (r, c)) && ScanInv(b, st, r, c)
    ensures ScanInv(b, ScanCell(b, st, (r, c)), r, c + 1)
  {
    if At(b, (r, c)).Some? && (r, c) !in st.visited {
      AddComponentInv(b, st, r, c);
    } else {
      AdvanceCovered(b, st.visited, st.visited, r, c);
    }
  }

  lemma {:induction false} ScanRowInv(b: Board, st: ScanState, r: int, c: nat)
    requires IsBoard(b) && 0 <= r < |b| && c <= Width(b) && ScanInv(b, st, r, 0)
    ensures ScanInv(b, ScanRow(b, st, r, c), r, c)
  {
    if c > 0 {
      ScanRowInv(b, st, r, c - 1);
      ScanCellInv(b, ScanRow(b, st, r, c - 1), r, c - 1);
    }
  }

  /** Scanning a full row from its start carries the invariant to the next row. */
  lemma ScanRowEnd(b: Board, st: ScanState, r: int)
    requires IsBoard(b) && 0 <= r < |b| && ScanInv(b, st, r, 0)
    ensures ScanInv(b, ScanRow(b, st, r, Width(b)), r + 1, 0)
  {
    var st' := ScanRow(b, st, r, Width(b));
    ScanRowInv(b, st, r, Width(b));
    forall p | InBounds(b, p) && Before(p, r + 1, 0) && At(b, p).Some? ensures p in st'.visited {
      assert Before(p, r, Width(b));
    }
  }

  lemma {:induction false} ScanRowsInv(b: Board, r: nat)
    requires IsBoard(b) && r <= |b|
    ensures ScanInv(b, ScanRows(b, r), r, 0)
  {
    if r == 0 {
      ScanInvIntro(b, {}, [], 0, 0);
    } else {
      ScanRowsInv(b, r - 1);
      ScanRowEnd(b, ScanRows(b, r - 1), r - 1);
    }
  }

  /** Every listed move is a removable component and no component is listed twice. */
  lemma MovesSound(b: Board)
    requires IsBoard(b)
    ensures forall i | 0 <= i < |Moves(b)| :: IsMove(b, Moves(b)[i])
    ensures forall i, j | 0 <= i < j < |Moves(b)| :: Moves(b)[i] != Moves(b)[j]
  {
    ScanRowsInv(b, |b|);
  }

  /** The component of every cell with more than one cell is listed. */
  lemma MovesComplete(b: Board, p: Pos)
    requires IsBoard(b) && p in AllPos(b) && |Component(b, p)| > 1
    ensures Component(b, p) in Moves(b)
  {
    ScanRowsInv(b, |b|);
    ComponentHasStart(b, p);
    assert Before(p, |b|, 0);
  }

  /** Scanning all cells visits exactly the occupied cells, so the components met
      (singletons included) partition the occupied cells. */
  lemma ScanVisitsOccupied(b: Board)
    requires IsBoard(b)
    ensures ScanRows(b, |b|).visited == set p | p in AllPos(b) && At(b, p).Some?
  {
    ScanRowsInv(b, |b|);
    forall p | p in AllPos(b) && At(b, p).Some? ensures p in ScanRows(b, |b|).visited {
      assert Before(p, |b|, 0);
    }
  }

  /** Two different listed moves share no cell. */
  lemma MovesDisjoint(b: Board, i: int, j: int)
    requires IsBoard(b) && 0 <= i < |Moves(b)| && 0 <= j < |Moves(b)| && i != j
    ensures Moves(b)[i] !! Moves(b)[j]
  {
    MovesSound(b);
    forall x | x in Moves(b)[i] ensures x !in Moves(b)[j] {
      assert Component(b, x) == Moves(b)[i];
    }
  }

  /** The game is over exactly when the scan finds no removable component. */
  lemma TerminalIffNoMoves(b: Board)
    requires IsBoard(b)
    ensures Terminal(b) <==> Moves(b) == []
  {
    MovesSound(b);
    if !Terminal(b) {
      var p :| p in AllPos(b) && |Component(b, p)| >= 2;
      MovesComplete(b, p);
    }
    if Moves(b) != [] {
      var C := Moves(b)[0];
      assert IsMove(b, C);
      var p :| p in C;
      assert Component(b, p) == C;
      ComponentMembers(b, p, p);
      assert p in AllPos(b);
    }
  }

  /** The cells of a move are on the board and occupied. */
  lemma MoveCellsOccupied(b: Board, C: set<Pos>)
    requires IsBoard(b) && IsMove(b, C)
    ensures forall p | p in C :: InBounds(b, p) && At(b, p).Some?
  {
    forall p | p in C ensures InBounds(b, p) && At(b, p).Some? {
      ComponentMembers(b, p, p);
    }
  }

  /** The board a move leaves: remove its cells, then vertical gravity. */
  ghost function Next(b: Board, C: set<Pos>): (b': Board)
    requires IsBoard(b)
    ensures IsBoard(b')
  {
    RemoveShape(b, C);
    Gravity(RemoveCells(b, C))
  }

  /** Each move strictly lowers the number of occupied cells. */
  lemma NextSmaller(b: Board, C: set<Pos>)
    requires IsBoard(b) && IsMove(b, C)
    ensures OccupiedCount(Next(b, C)) < OccupiedCount(b)
  {
    var p :| p in C;
    MoveCellsOccupied(b, C);
    MoveLowersCount(b, C, p);
  }

  /** Every entry of Moves(b) lowers the occupied count. */
  lemma MovesShrink(b: Board, i: int)
    requires IsBoard(b) && 0 <= i < |Moves(b)|
    ensures IsMove(b, Moves(b)[i])
    ensures OccupiedCount(Next(b, Moves(b)[i])) < OccupiedCount(b)
  {
    MovesSound(b);
    NextSmaller(b, Moves(b)[i]);
  }
}
