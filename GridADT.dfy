/** The mutable board object (`GridADT`) and the in-place primitives every
    strategy is built from: the recursive flood fill, component removal,
    stack-based gravity, copying, and the row-major component scans. */
module GridADT {
  import opened Board
  import opened Transforms
  import opened Scan

  /** The cells of a coordinate list, as a set. */
  function Elements(s: seq<Pos>): set<Pos> {
    set x | x in s
  }

  predicate NoDup<T(==)>(s: seq<T>) {
    forall i, j | 0 <= i < j < |s| :: s[i] != s[j]
  }

  /** A list without repeats has as many cells as its set. */
  lemma {:induction false} NoDupCard(s: seq<Pos>)
    requires NoDup(s)
    ensures |Elements(s)| == |s|
  {
    if s != [] {
      var front := s[..|s| - 1];
      assert NoDup(front);
      NoDupCard(front);
      assert Elements(s) == Elements(front) + {s[|s| - 1]};
      assert s[|s| - 1] !in Elements(front) by {
        forall i | 0 <= i < |front| ensures front[i] != s[|s| - 1] {
          assert front[i] == s[i];
        }
      }
    }
  }

  /** The visited set and the component lists of an imperative scan match the
      scan state `st` of the specification. */
  ghost predicate Tracks(st: ScanState, visited: set<Pos>, comps: seq<seq<Pos>>) {
    && visited == st.visited
    && |comps| == |st.moves|
    && forall i | 0 <= i < |comps| :: Elements(comps[i]) == st.moves[i] && NoDup(comps[i])
  }

  /** `comps` lists, in scan order and each without repeats, the cells of
      the removable components of `b`. */
  ghost predicate ListsMoves(b: Board, comps: seq<seq<Pos>>)
    requires IsBoard(b)
  {
    && |comps| == |Moves(b)|
    && forall i | 0 <= i < |comps| :: ListsMove(b, comps[i], i)
  }

  /** `comp` lists, without repeats, the cells of the `i`-th move. */
  ghost predicate ListsMove(b: Board, comp: seq<Pos>, i: int)
    requires IsBoard(b)
  {
    0 <= i < |Moves(b)| && Elements(comp) == Moves(b)[i] && NoDup(comp)
  }

  /** A listed move: its cells are on the board, and it has as many cells
      as the component it lists. */
  lemma ListedMove(b: Board, comp: seq<Pos>, i: int)
    requires IsBoard(b) && ListsMove(b, comp, i)
    ensures IsMove(b, Moves(b)[i]) && |comp| == |Moves(b)[i]| >= 2
    ensures forall k | 0 <= k < |comp| :: InBounds(b, comp[k])
    ensures OccupiedCount(Next(b, Moves(b)[i])) < OccupiedCount(b)
  {
    MovesShrink(b, i);
    NoDupCard(comp);
    MoveCellsOccupied(b, Moves(b)[i]);
    forall k | 0 <= k < |comp| ensures InBounds(b, comp[k]) {
      assert comp[k] in Elements(comp);
    }
  }

  /** Two columns holding the same cells are both empty or both not. */
  lemma HasBlockOfColumn(b: Board, c: int, b': Board, c': int)
    requires IsBoard(b) && IsBoard(b') && |b| == |b'| && 0 <= c < Width(b) && 0 <= c' < Width(b')
    requires Column(b, c) == Column(b', c')
    ensures HasBlock(b, c) == HasBlock(b', c')
  {
    if HasBlock(b, c) {
      var r :| 0 <= r < |b| && b[r][c].Some?;
      assert Column(b', c')[r] == b'[r][c'];
    }
    if HasBlock(b', c') {
      var r :| 0 <= r < |b'| && b'[r][c'].Some?;
      assert Column(b, c)[r] == b[r][c];
    }
  }

  /** The state of the compression loop on board `b` after `read` columns
      of the original board `b0`: the first `write` columns are the
      non-empty columns of `b0` so far, in order, the columns up to `read`
      are empty, and the rest are untouched. */
  ghost predicate Compressed(b: Board, b0: Board, read: int, write: int) {
    && IsBoard(b) && IsBoard(b0) && |b0| == |b| && Width(b0) == Width(b)
    && 0 <= read <= Width(b)
    && write == |NonEmptyColumns(b0, read)| && write <= read
    && (forall j | 0 <= j < write :: HasBlock(b, j))
    && (forall j | 0 <= j < write :: Column(b, j) == Column(b0, NonEmptyColumns(b0, read)[j]))
    && (forall j | write <= j < read :: Column(b, j) == Empties(|b|))
    && (forall j | read <= j < Width(b) :: Column(b, j) == Column(b0, j))
  }

  /** An empty column `read` is passed over. */
  lemma CompressSkipped(b: Board, b0: Board, read: int, write: int)
    requires Compressed(b, b0, read, write) && read < Width(b) && !HasBlock(b0, read)
    ensures Compressed(b, b0, read + 1, write)
  {
    assert NonEmptyColumns(b0, read + 1) == NonEmptyColumns(b0, read);
  }

  /** A non-empty column `read` already in place (`write == read`) stays. */
  lemma CompressInPlace(b: Board, b0: Board, read: int)
    requires Compressed(b, b0, read, read) && read < Width(b) && HasBlock(b0, read)
    ensures Compressed(b, b0, read + 1, read + 1)
  {
    var cs := NonEmptyColumns(b0, read);
    assert NonEmptyColumns(b0, read + 1) == cs + [read];
    HasBlockOfColumn(b, read, b0, read);
  }

  /** A non-empty column `read` moved to `write < read` leaves the board
      compressed one column further. */
  lemma CompressMoved(b: Board, b': Board, b0: Board, read: int, write: int)
    requires Compressed(b, b0, read, write) && read < Width(b) && write != read && HasBlock(b0, read)
    requires IsBoard(b') && |b'| == |b| && Width(b') == Width(b)
    requires Column(b', write) == Column(b, read) && Column(b', read) == Empties(|b|)
    requires forall c | 0 <= c < Width(b) && c != write && c != read :: Column(b', c) == Column(b, c)
    ensures Compressed(b', b0, read + 1, write + 1)
  {
    var cs := NonEmptyColumns(b0, read);
    var ncs := cs + [read];
    assert NonEmptyColumns(b0, read + 1) == ncs;
    forall j | 0 <= j <= write
      ensures Column(b', j) == Column(b0, ncs[j]) && HasBlock(b', j)
    {
      HasBlockOfColumn(b', j, b0, ncs[j]);
    }
  }

  class Grid {
    const rows: nat
    const cols: nat
    var board: Board

    /** `board` is a `rows` x `cols` matrix. */
    predicate Valid()
      reads this
    {
      IsBoard(board) && |board| == rows && Width(board) == cols
    }

    /** A grid holding the given board (the random `create_board` is not modelled). */
    constructor (b: Board)
      requires IsBoard(b)
      ensures Valid() && board == b
    {
      rows := |b|;
      cols := Width(b);
      board := b;
    }

    /** `dfs`: flood fill from `(r, c)` through cells holding `color`, adding
        each newly reached cell to `visited` and appending it to `component`.
        `target` is the component being filled, closed under same-colour
        neighbours. */
    method Dfs(r: int, c: int, color: Color, visited: set<Pos>, component: seq<Pos>, ghost target: set<Pos>)
      returns (visited': set<Pos>, component': seq<Pos>)
      requires Valid()
      requires ClosedUnder(board, target, Some(color))
      requires visited <= target
      requires InBounds(board, (r, c)) && At(board, (r, c)) == Some(color) ==> (r, c) in target
      requires Elements(component) == visited && NoDup(component)
      ensures visited <= visited' <= target
      ensures Elements(component') == visited' && NoDup(component')
      ensures InBounds(board, (r, c)) && At(board, (r, c)) == Some(color) ==> (r, c) in visited'
      ensures forall x, q | x in visited' - visited && q in Neighbors(x.0, x.1) && InBounds(board, q) && At(board, q) == Some(color) :: q in visited'
      decreases target - visited
    {
      if r < 0 || r >= rows || c < 0 || c >= cols {
        return visited, component;
      }
      if (r, c) in visited {
        return visited, component;
      }
      if board[r][c] != Some(color) {
        return visited, component;
      }
      visited' := visited + {(r, c)};
      component' := component + [(r, c)];
      var ns := Neighbors(r, c);
      for i := 0 to 4
        invariant visited + {(r, c)} <= visited' <= target
        invariant Elements(component') == visited' && NoDup(component')
        invariant forall j | 0 <= j < i && InBounds(board, ns[j]) && At(board, ns[j]) == Some(color) :: ns[j] in visited'
        invariant forall x, q | x in visited' - visited && x != (r, c) && q in Neighbors(x.0, x.1) && InBounds(board, q) && At(board, q) == Some(color) :: q in visited'
      {
        var (nr, nc) := ns[i];
        assert ns[i] == (nr, nc) && (nr, nc) in Neighbors(r, c);
        assert (r, c) in target - visited && (r, c) !in target - visited';
        ghost var before := visited';
        visited', component' := Dfs(nr, nc, color, visited', component', target);
        forall j | 0 <= j <= i && InBounds(board, ns[j]) && At(board, ns[j]) == Some(color) ensures ns[j] in visited' {
          if j < i {
            assert ns[j] in before;
          } else {
            assert ns[j] == (nr, nc);
          }
        }
      }
    }

    /** `get_component`: the list of cells of the component at `(r, c)`. */
    method GetComponent(r: int, c: int) returns (component: seq<Pos>)
      requires Valid() && InBounds(board, (r, c))
      ensures Elements(component) == Component(board, (r, c)) && NoDup(component)
      ensures board[r][c] == None <==> component == []
      ensures forall x | x in component :: InBounds(board, x) && At(board, x) == board[r][c]
    {
      if board[r][c] == None {
        return [];
      }
      ghost var K := Component(board, (r, c));
      ComponentHasStart(board, (r, c));
      ComponentClosed(board, (r, c));
      var visited;
      visited, component := Dfs(r, c, board[r][c].value, {}, [], K);
      assert ClosedUnder(board, visited, board[r][c]);
      ComponentLeast(board, (r, c), visited);
      forall x | x in component ensures InBounds(board, x) && At(board, x) == board[r][c] {
        ComponentMembers(board, (r, c), x);
      }
    }

    /** `grid.board[r][c] = v`: one cell is overwritten, the shape is kept. */
    method SetCell(r: int, c: int, v: Cell)
      requires Valid() && 0 <= r < rows && 0 <= c < cols
      modifies this
      ensures Valid() && board == old(board)[r := old(board)[r][c := v]]
    {
      board := board[r := board[r][c := v]];
    }

    /** `remove_component`: every listed cell becomes empty. */
    method RemoveComponent(component: seq<Pos>)
      requires Valid()
      requires forall i | 0 <= i < |component| :: InBounds(board, component[i])
      modifies this
      ensures Valid()
      ensures board == RemoveCells(old(board), Elements(component))
    {
      assert Elements(component[..0]) == {};
      RemoveNothing(board);
      for i := 0 to |component|
        invariant Valid()
        invariant board == RemoveCells(old(board), Elements(component[..i]))
      {
        var (r, c) := component[i];
        RemoveOneMore(old(board), Elements(component[..i]), r, c);
        SetCell(r, c, None);
        assert Elements(component[..i + 1]) == Elements(component[..i]) + {(r, c)} by {
          assert component[..i + 1] == component[..i] + [(r, c)];
        }
      }
      assert component[..|component|] == component;
    }

    /** The first inner loop of `apply_gravity`: the blocks of column `c`,
        pushed top to bottom. */
    method ColumnStack(c: int) returns (stack: seq<Cell>)
      requires Valid() && 0 <= c < cols
      ensures stack == Occupants(Column(board, c))
    {
      ghost var col := Column(board, c);
      stack := [];
      for r := 0 to rows
        invariant stack == Occupants(col[..r])
      {
        assert col[..r + 1] == col[..r] + [col[r]];
        OccupantsAppend(col[..r], [col[r]]);
        if board[r][c].Some? {
          stack := stack + [board[r][c]];
        }
      }
      assert col[..rows] == col;
    }

    /** One pass of the outer loop of `apply_gravity`: stack column `c`'s
        blocks, then pop them back from the bottom row up, filling the rest
        with `None`. */
    method SettleColumn(c: int)
      requires Valid() && 0 <= c < cols
      modifies this
      ensures Valid()
      ensures Column(board, c) == Settle(Column(old(board), c))
      ensures forall c' | 0 <= c' < cols && c' != c :: Column(board, c') == Column(old(board), c')
    {
      ghost var col := Column(board, c);
      var stack := ColumnStack(c);
      ghost var occ := Occupants(col);
      ghost var k := rows - |occ|;
      SettlePacked(col);
      for r := rows downto 0
        invariant Valid()
        invariant |stack| == if r >= k then r - k else 0
        invariant stack == occ[..|stack|]
        invariant forall r' | r <= r' < rows :: board[r'][c] == if r' < k then None else occ[r' - k]
        invariant forall r', c' | 0 <= r' < rows && 0 <= c' < cols && c' != c :: board[r'][c'] == old(board)[r'][c']
      {
        if |stack| > 0 {
          SetCell(r, c, stack[|stack| - 1]);
          stack := stack[..|stack| - 1];
        } else {
          SetCell(r, c, None);
        }
      }
    }

    /** `apply_gravity`: every column settles, left to right. */
    method ApplyGravity()
      requires Valid()
      modifies this
      ensures Valid()
      ensures board == Gravity(old(board))
    {
      for c := 0 to cols
        invariant Valid()
        invariant forall c' | 0 <= c' < c :: Column(board, c') == Settle(Column(old(board), c'))
        invariant forall c' | c <= c' < cols :: Column(board, c') == Column(old(board), c')
      {
        SettleColumn(c);
      }
      GravitySettlesColumns(old(board));
      ColumnsDetermineBoard(board, Gravity(old(board)));
    }

    /** `copy_grid` (and `copy.deepcopy`): a fresh grid with an equal board. */
    method Copy() returns (g: Grid)
      requires Valid()
      ensures fresh(g) && g.Valid() && g.board == board && g.rows == rows && g.cols == cols
    {
      g := new Grid(board);
    }

    /** The row-major `visited` scan: flood-fill each occupied unvisited cell,
        mark its component visited, keep it when it has more than one cell.
        The lists found are exactly the removable components `Moves(board)`,
        in scan order. */
    method AllComponents() returns (comps: seq<seq<Pos>>)
      requires Valid()
      ensures ListsMoves(board, comps)
    {
      comps := [];
      var visited: set<Pos> := {};
      for r := 0 to rows
        invariant Tracks(ScanRows(board, r), visited, comps)
      {
        for c := 0 to cols
          invariant Tracks(ScanRow(board, ScanRows(board, r), r, c), visited, comps)
        {
          visited, comps := ScanCellStep(r, c, ScanRow(board, ScanRows(board, r), r, c), visited, comps);
        }
      }
    }

    /** One cell of the `visited` scan: when `(r, c)` is occupied and not yet
        visited, flood-fill it, mark its component visited and keep the
        component when it has more than one cell. */
    method ScanCellStep(r: int, c: int, ghost st: ScanState, visited: set<Pos>, comps: seq<seq<Pos>>)
      returns (visited': set<Pos>, comps': seq<seq<Pos>>)
      requires Valid() && InBounds(board, (r, c)) && Tracks(st, visited, comps)
      ensures Tracks(ScanCell(board, st, (r, c)), visited', comps')
    {
      visited', comps' := visited, comps;
      if board[r][c].Some? && (r, c) !in visited {
        var comp := GetComponent(r, c);
        visited' := visited + Elements(comp);
        if |comp| > 1 {
          comps' := comps + [comp];
        }
        NoDupCard(comp);
      }
    }

    /** `is_game_over` as the later program writes it: one scan with a
        global `visited` set, stopping at the first component of more than
        one cell. True exactly when no move is left. */
    method IsGameOver() returns (over: bool)
      requires Valid()
      ensures over <==> Terminal(board)
    {
      var visited: set<Pos> := {};
      for r := 0 to rows
        invariant visited == ScanRows(board, r).visited && ScanRows(board, r).moves == []
      {
        for c := 0 to cols
          invariant visited == ScanRow(board, ScanRows(board, r), r, c).visited
          invariant ScanRow(board, ScanRows(board, r), r, c).moves == []
        {
          var found;
          visited, found := GameOverStep(r, c, ScanRow(board, ScanRows(board, r), r, c), visited);
          if found {
            assert (r, c) in AllPos(board);
            return false;
          }
        }
      }
      TerminalIffNoMoves(board);
      return true;
    }

    /** One cell of the scan of `is_game_over`: when `(r, c)` is occupied and
        not yet visited, flood-fill it and mark its component visited;
        `found` says that the component has more than one cell. */
    method GameOverStep(r: int, c: int, ghost st: ScanState, visited: set<Pos>)
      returns (visited': set<Pos>, found: bool)
      requires Valid() && InBounds(board, (r, c)) && visited == st.visited && st.moves == []
      ensures visited' == ScanCell(board, st, (r, c)).visited
      ensures found <==> ScanCell(board, st, (r, c)).moves != []
      ensures found ==> |Component(board, (r, c))| > 1
    {
      visited', found := visited, false;
      if board[r][c].Some? && (r, c) !in visited {
        var comp := GetComponent(r, c);
        NoDupCard(comp);
        visited' := visited + Elements(comp);
        found := |comp| > 1;
      }
    }

    /** `is_game_over` as the first program writes it: flood-fill from
        every occupied cell, with no shared `visited` set. */
    method IsGameOverEveryCell() returns (over: bool)
      requires Valid()
      ensures over <==> Terminal(board)
    {
      for r := 0 to rows
        invariant forall p | p in AllPos(board) && Before(p, r, 0) :: |Component(board, p)| < 2
      {
        for c := 0 to cols
          invariant forall p | p in AllPos(board) && Before(p, r, c) :: |Component(board, p)| < 2
        {
          if board[r][c].Some? {
            var found := HasMoveAt(r, c);
            if found {
              assert (r, c) in AllPos(board);
              return false;
            }
          }
          assert forall p | p in AllPos(board) && Before(p, r, c + 1) :: p == (r, c) || Before(p, r, c);
        }
        assert forall p | p in AllPos(board) && Before(p, r + 1, 0) :: Before(p, r, cols);
      }
      assert forall p | p in AllPos(board) :: Before(p, rows, 0);
      return true;
    }

    /** `len(get_component(grid, r, c)) > 1`: the cell lies in a removable
        component. */
    method HasMoveAt(r: int, c: int) returns (found: bool)
      requires Valid() && InBounds(board, (r, c))
      ensures found <==> |Component(board, (r, c))| > 1
    {
      var comp := GetComponent(r, c);
      NoDupCard(comp);
      found := |comp| > 1;
    }

    /** The inner loop of the horizontal compression: column `from` moves
        to column `to`, and column `from` is left empty. */
    method MoveColumn(to: int, from: int)
      requires Valid() && 0 <= to < from < cols
      modifies this
      ensures Valid()
      ensures Column(board, to) == Column(old(board), from)
      ensures Column(board, from) == Empties(rows)
      ensures forall c | 0 <= c < cols && c != to && c != from :: Column(board, c) == Column(old(board), c)
    {
      for r := 0 to rows
        invariant Valid()
        invariant forall r' | 0 <= r' < r :: board[r'][to] == old(board)[r'][from] && board[r'][from] == None
        invariant forall r' | r <= r' < rows :: board[r'] == old(board)[r']
        invariant forall r', c | 0 <= r' < rows && 0 <= c < cols && c != to && c != from :: board[r'][c] == old(board)[r'][c]
      {
        SetCell(r, to, board[r][from]);
        SetCell(r, from, None);
      }
    }

    /** The horizontal compression: `write` is where the next non-empty
        column goes while `read` scans left to right; every non-empty column
        moves to `write`, so the non-empty columns end up packed to the left
        in their order and the rest are empty. */
    method Compress()
      requires Valid()
      modifies this
      ensures Valid()
      ensures board == Compact(old(board))
    {
      ghost var b0 := board;
      var write := 0;
      for read := 0 to cols
        invariant Valid() && Compressed(board, b0, read, write)
      {
        write := CompressStep(b0, read, write);
      }
      CompactColumns(b0);
      ColumnsDetermineBoard(board, Compact(b0));
    }

    /** One turn of the compression loop: when column `read` holds a block,
        move it to `write` (unless they are the same) and advance `write`. */
    method CompressStep(ghost b0: Board, read: int, write: int) returns (write': int)
      requires Valid() && Compressed(board, b0, read, write) && read < cols
      modifies this
      ensures Valid() && Compressed(board, b0, read + 1, write')
    {
      HasBlockOfColumn(board, read, b0, read);
      if HasBlock(board, read) {
        if write != read {
          ghost var before := board;
          MoveColumn(write, read);
          CompressMoved(before, board, b0, read, write);
        } else {
          CompressInPlace(board, b0, read);
        }
        write' := write + 1;
      } else {
        CompressSkipped(board, b0, read, write);
        write' := write;
      }
    }

    /** `copy_grid`, then `remove_component` and `apply_gravity` on the
        copy: the board a move leaves, on a fresh grid. */
    method Simulate(comp: seq<Pos>) returns (next: Grid)
      requires Valid()
      requires forall i | 0 <= i < |comp| :: InBounds(board, comp[i])
      ensures fresh(next) && next.Valid() && next.rows == rows && next.cols == cols
      ensures next.board == Next(board, Elements(comp))
    {
      next := Copy();
      next.RemoveComponent(comp);
      next.ApplyGravity();
    }
  }
}
