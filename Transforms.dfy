/** Pure board transforms: removing a set of cells, stack-based vertical
    gravity (each column's blocks fall to the bottom in order), and
    horizontal compaction (non-empty columns packed to the left). */
module Transforms {
  import opened Board

  function Column(b: Board, c: int): (col: seq<Cell>)
    requires IsBoard(b) && 0 <= c < Width(b)
    ensures |col| == |b|
    ensures forall r | 0 <= r < |b| :: col[r] == b[r][c]
  {
    seq(|b|, r requires 0 <= r < |b| => b[r][c])
  }

  /** The occupied cells of a column, top to bottom (the gravity stack). */
  function Occupants(col: seq<Cell>): (occ: seq<Cell>)
    ensures |occ| <= |col|
    ensures forall i | 0 <= i < |occ| :: occ[i].Some?
  {
    if col == [] then []
    else Occupants(col[..|col| - 1]) + (if col[|col| - 1].Some? then [col[|col| - 1]] else [])
  }

  function Empties(n: nat): (col: seq<Cell>)
    ensures |col| == n && forall i | 0 <= i < n :: col[i] == None
  {
    seq(n, _ => None)
  }

  /** A column after gravity: empties on top, then the occupants in order. */
  function Settle(col: seq<Cell>): (s: seq<Cell>)
    ensures |s| == |col|
  {
    Empties(|col| - |Occupants(col)|) + Occupants(col)
  }

  function Gravity(b: Board): (g: Board)
    requires IsBoard(b)
  {
    seq(|b|, r requires 0 <= r < |b| =>
      seq(Width(b), c requires 0 <= c < Width(b) => Settle(Column(b, c))[r]))
  }

  /** `remove_component`: the listed cells become empty, the rest stay. */
  function RemoveCells(b: Board, S: set<Pos>): (b': Board)
    requires IsBoard(b)
  {
    seq(|b|, r requires 0 <= r < |b| =>
      seq(Width(b), c requires 0 <= c < Width(b) => if (r, c) in S then None else b[r][c]))
  }

  /** A column holding at least one block. */
  predicate HasBlock(b: Board, c: int)
    requires IsBoard(b) && 0 <= c < Width(b)
  {
    exists r | 0 <= r < |b| :: b[r][c].Some?
  }

  /** The indices below `k` of the columns holding a block, left to right. */
  function NonEmptyColumns(b: Board, k: nat): (cs: seq<int>)
    requires IsBoard(b) && k <= Width(b)
    ensures |cs| <= k
    ensures forall i | 0 <= i < |cs| :: 0 <= cs[i] < k && HasBlock(b, cs[i])
  {
    if k == 0 then []
    else NonEmptyColumns(b, k - 1) + (if HasBlock(b, k - 1) then [k - 1] else [])
  }

  /** Horizontal compaction: the non-empty columns, in order, then empty ones. */
  function Compact(b: Board): (b': Board)
    requires IsBoard(b)
  {
    var cs := NonEmptyColumns(b, Width(b));
    seq(|b|, r requires 0 <= r < |b| =>
      seq(Width(b), j requires 0 <= j < Width(b) => if j < |cs| then b[r][cs[j]] else None))
  }

  /** The number of blocks in each column, left to right. */
  function ColumnSizes(b: Board): (ns: seq<nat>)
    requires IsBoard(b)
    ensures |ns| == Width(b) && forall c | 0 <= c < Width(b) :: ns[c] == |Occupants(Column(b, c))|
  {
    seq(Width(b), c requires 0 <= c < Width(b) => |Occupants(Column(b, c))|)
  }

  /** The sum of the first `k` numbers. */
  function SumTo(ns: seq<nat>, k: nat): nat
    requires k <= |ns|
  {
    if k == 0 then 0 else SumTo(ns, k - 1) + ns[k - 1]
  }

  /** Number of occupied cells in the first `k` columns. */
  function CountUpTo(b: Board, k: nat): nat
    requires IsBoard(b) && k <= Width(b)
  {
    if k == 0 then 0 else CountUpTo(b, k - 1) + |Occupants(Column(b, k - 1))|
  }

  /** Number of occupied cells, summed column by column. */
  function OccupiedCount(b: Board): nat
    requires IsBoard(b)
  {
    CountUpTo(b, Width(b))
  }

  // ---------------------------------------------------------------------------
  // Shapes

  lemma GravityShape(b: Board)
    requires IsBoard(b)
    ensures IsBoard(Gravity(b)) && |Gravity(b)| == |b| && Width(Gravity(b)) == Width(b)
  {
  }

  lemma RemoveShape(b: Board, S: set<Pos>)
    requires IsBoard(b)
    ensures IsBoard(RemoveCells(b, S)) && |RemoveCells(b, S)| == |b| && Width(RemoveCells(b, S)) == Width(b)
  {
  }

  /** Removing no cell changes nothing. */
  lemma RemoveNothing(b: Board)
    requires IsBoard(b)
    ensures RemoveCells(b, {}) == b
  {
    var b' := RemoveCells(b, {});
    forall r | 0 <= r < |b| ensures b'[r] == b[r] {
      assert |b'[r]| == |b[r]|;
    }
  }

  /** Removing one more cell is one more cell update. */
  lemma RemoveOneMore(b: Board, S: set<Pos>, r: int, c: int)
    requires IsBoard(b) && InBounds(b, (r, c))
    ensures var b' := RemoveCells(b, S);
      RemoveCells(b, S + {(r, c)}) == b'[r := b'[r][c := None]]
  {
    var b' := RemoveCells(b, S);
    var lhs := RemoveCells(b, S + {(r, c)});
    var rhs := b'[r := b'[r][c := None]];
    forall r' | 0 <= r' < |b| ensures lhs[r'] == rhs[r'] {
      assert |lhs[r']| == |rhs[r']|;
    }
  }

  lemma CompactShape(b: Board)
    requires IsBoard(b)
    ensures IsBoard(Compact(b)) && |Compact(b)| == |b| && Width(Compact(b)) == Width(b)
  {
  }

  /** Two boards of the same shape agreeing on every column are equal. */
  lemma ColumnsDetermineBoard(b: Board, b': Board)
    requires IsBoard(b) && IsBoard(b') && |b| == |b'| && Width(b) == Width(b')
    requires forall c | 0 <= c < Width(b) :: Column(b, c) == Column(b', c)
    ensures b == b'
  {
    forall r | 0 <= r < |b| ensures b[r] == b'[r] {
      forall c | 0 <= c < Width(b) ensures b[r][c] == b'[r][c] {
        assert Column(b, c)[r] == Column(b', c)[r];
      }
    }
  }

  // ---------------------------------------------------------------------------
  // Occupants and Settle

  lemma {:induction false} OccupantsAppend(a: seq<Cell>, a': seq<Cell>)
    ensures Occupants(a + a') == Occupants(a) + Occupants(a')
    decreases |a'|
  {
    if a' == [] {
      assert a + a' == a;
    } else {
      var front := a'[..|a'| - 1];
      assert (a + a')[..|a + a'| - 1] == a + front;
      OccupantsAppend(a, front);
    }
  }

  lemma {:induction false} OccupantsOfEmpties(n: nat)
    ensures Occupants(Empties(n)) == []
  {
    if n > 0 {
      assert Empties(n)[..n - 1] == Empties(n - 1);
      OccupantsOfEmpties(n - 1);
    }
  }

  lemma {:induction false} OccupantsOfOccupied(occ: seq<Cell>)
    requires forall i | 0 <= i < |occ| :: occ[i].Some?
    ensures Occupants(occ) == occ
  {
    if occ != [] {
      OccupantsOfOccupied(occ[..|occ| - 1]);
      assert occ[..|occ| - 1] + [occ[|occ| - 1]] == occ;
    }
  }

  /** Gravity keeps a column's blocks and their top-to-bottom order. */
  lemma SettleKeepsOccupants(col: seq<Cell>)
    ensures Occupants(Settle(col)) == Occupants(col)
  {
    var occ := Occupants(col);
    OccupantsAppend(Empties(|col| - |occ|), occ);
    OccupantsOfEmpties(|col| - |occ|);
    OccupantsOfOccupied(occ);
  }

  /** After gravity the blocks fill the bottom rows and empties sit above. */
  lemma SettlePacked(col: seq<Cell>)
    ensures var k := |col| - |Occupants(col)|;
      && (forall i | 0 <= i < k :: Settle(col)[i] == None)
      && (forall i | k <= i < |col| :: Settle(col)[i] == Occupants(col)[i - k])
  {
  }

  lemma SettleIdempotent(col: seq<Cell>)
    ensures Settle(Settle(col)) == Settle(col)
  {
    SettleKeepsOccupants(col);
  }

  // ---------------------------------------------------------------------------
  // Gravity

  lemma GravityColumn(b: Board, c: int)
    requires IsBoard(b) && 0 <= c < Width(b)
    ensures IsBoard(Gravity(b)) && Width(Gravity(b)) == Width(b)
    ensures Column(Gravity(b), c) == Settle(Column(b, c))
  {
    GravityShape(b);
  }

  /** Every column of the result is its settled original. */
  lemma GravitySettlesColumns(b: Board)
    requires IsBoard(b)
    ensures IsBoard(Gravity(b)) && |Gravity(b)| == |b| && Width(Gravity(b)) == Width(b)
    ensures forall c | 0 <= c < Width(b) ::
      && Occupants(Column(Gravity(b), c)) == Occupants(Column(b, c))
      && Column(Gravity(b), c) == Settle(Column(b, c))
  {
    GravityShape(b);
    forall c | 0 <= c < Width(b)
      ensures Occupants(Column(Gravity(b), c)) == Occupants(Column(b, c))
      ensures Column(Gravity(b), c) == Settle(Column(b, c))
    {
      GravityColumn(b, c);
      SettleKeepsOccupants(Column(b, c));
    }
  }

  /** A second application of gravity changes nothing. */
  lemma GravityIdempotent(b: Board)
    requires IsBoard(b)
    ensures IsBoard(Gravity(b)) && Gravity(Gravity(b)) == Gravity(b)
  {
    var g := Gravity(b);
    GravityShape(b);
    GravityShape(g);
    forall c | 0 <= c < Width(b) ensures Column(Gravity(g), c) == Column(g, c) {
      GravityColumn(b, c);
      GravityColumn(g, c);
      SettleIdempotent(Column(b, c));
    }
    ColumnsDetermineBoard(Gravity(g), g);
  }

  // ---------------------------------------------------------------------------
  // Occupied-cell count

  lemma GravityKeepsCount(b: Board)
    requires IsBoard(b)
    ensures IsBoard(Gravity(b)) && OccupiedCount(Gravity(b)) == OccupiedCount(b)
  {
    GravitySettlesColumns(b);
    assert ColumnSizes(Gravity(b)) == ColumnSizes(b);
    CountUpToIsSum(b, Width(b));
    CountUpToIsSum(Gravity(b), Width(b));
  }

  /** Emptying cells never adds occupants; emptying an occupied one loses one. */
  lemma {:induction false} OccupantsShrink(col: seq<Cell>, col': seq<Cell>)
    requires |col| == |col'|
    requires forall i | 0 <= i < |col| :: col'[i].Some? ==> col'[i] == col[i]
    ensures |Occupants(col')| <= |Occupants(col)|
    ensures (exists i | 0 <= i < |col| :: col[i].Some? && col'[i].None?) ==>
      |Occupants(col')| < |Occupants(col)|
  {
    if col != [] {
      var n := |col|;
      OccupantsShrink(col[..n - 1], col'[..n - 1]);
      if exists i | 0 <= i < n :: col[i].Some? && col'[i].None? {
        var i :| 0 <= i < n && col[i].Some? && col'[i].None?;
        if i < n - 1 {
          assert col[..n - 1][i] == col[i] && col'[..n - 1][i] == col'[i];
        }
      }
    }
  }

  /** The count is the sum of the column sizes. */
  lemma {:induction false} CountUpToIsSum(b: Board, k: nat)
    requires IsBoard(b) && k <= Width(b)
    ensures CountUpTo(b, k) == SumTo(ColumnSizes(b), k)
  {
    if k > 0 {
      CountUpToIsSum(b, k - 1);
    }
  }

  /** Pointwise no larger numbers have a no larger sum. */
  lemma {:induction false} SumToShrinks(ns: seq<nat>, ns': seq<nat>, k: nat)
    requires k <= |ns| && k <= |ns'|
    requires forall c | 0 <= c < k :: ns'[c] <= ns[c]
    ensures SumTo(ns', k) <= SumTo(ns, k)
  {
    if k > 0 {
      SumToShrinks(ns, ns', k - 1);
    }
  }

  /** ... and a strictly smaller sum when one of them is smaller. */
  lemma {:induction false} SumToDrops(ns: seq<nat>, ns': seq<nat>, k: nat, c0: int)
    requires k <= |ns| && k <= |ns'|
    requires forall c | 0 <= c < k :: ns'[c] <= ns[c]
    requires 0 <= c0 < k && ns'[c0] < ns[c0]
    ensures SumTo(ns', k) < SumTo(ns, k)
  {
    if c0 == k - 1 {
      SumToShrinks(ns, ns', k - 1);
    } else {
      SumToDrops(ns, ns', k - 1, c0);
    }
  }

  /** Removing a set that holds an occupied cell strictly lowers the count. */
  lemma RemoveLowersCount(b: Board, S: set<Pos>, x: Pos)
    requires IsBoard(b) && x in S && InBounds(b, x) && At(b, x).Some?
    ensures IsBoard(RemoveCells(b, S)) && OccupiedCount(RemoveCells(b, S)) < OccupiedCount(b)
  {
    var b' := RemoveCells(b, S);
    RemoveShape(b, S);
    forall c | 0 <= c < Width(b)
      ensures |Occupants(Column(b', c))| <= |Occupants(Column(b, c))|
      ensures c == x.1 ==> |Occupants(Column(b', c))| < |Occupants(Column(b, c))|
    {
      OccupantsShrink(Column(b, c), Column(b', c));
      if c == x.1 {
        assert Column(b, c)[x.0].Some? && Column(b', c)[x.0].None?;
      }
    }
    SumToDrops(ColumnSizes(b), ColumnSizes(b'), Width(b), x.1);
    CountUpToIsSum(b, Width(b));
    CountUpToIsSum(b', Width(b));
  }

  /** A move (remove a set holding an occupied cell, then gravity) lowers the count. */
  lemma MoveLowersCount(b: Board, S: set<Pos>, x: Pos)
    requires IsBoard(b) && x in S && InBounds(b, x) && At(b, x).Some?
    ensures IsBoard(RemoveCells(b, S)) && IsBoard(Gravity(RemoveCells(b, S)))
    ensures OccupiedCount(Gravity(RemoveCells(b, S))) < OccupiedCount(b)
  {
    RemoveLowersCount(b, S, x);
    GravityKeepsCount(RemoveCells(b, S));
  }

  // ---------------------------------------------------------------------------
  // Compaction

  lemma {:induction false} NonEmptyColumnsExact(b: Board, k: nat)
    requires IsBoard(b) && k <= Width(b)
    ensures forall c | 0 <= c < k :: HasBlock(b, c) <==> c in NonEmptyColumns(b, k)
    ensures forall i, j | 0 <= i < j < |NonEmptyColumns(b, k)| ::
      NonEmptyColumns(b, k)[i] < NonEmptyColumns(b, k)[j]
  {
    if k > 0 {
      NonEmptyColumnsExact(b, k - 1);
    }
  }

  lemma {:induction false} NonEmptyColumnsPrefix(b: Board, b': Board, k: nat)
    requires IsBoard(b) && IsBoard(b') && k <= Width(b) && k <= Width(b')
    requires forall c | 0 <= c < k :: HasBlock(b, c) == HasBlock(b', c)
    ensures NonEmptyColumns(b, k) == NonEmptyColumns(b', k)
  {
    if k > 0 {
      NonEmptyColumnsPrefix(b, b', k - 1);
    }
  }

  lemma {:induction false} NonEmptyColumnsAllFirst(b: Board, k: nat, n: nat)
    requires IsBoard(b) && k <= Width(b)
    requires forall c | 0 <= c < k :: HasBlock(b, c) <==> c < n
    ensures NonEmptyColumns(b, k) == seq(if n < k then n else k, i => i)
  {
    if k > 0 {
      NonEmptyColumnsAllFirst(b, k - 1, n);
    }
  }

  /** Compaction puts the non-empty columns first, in their original order, with
      their contents unchanged, and leaves every later column empty. */
  lemma CompactColumns(b: Board)
    requires IsBoard(b)
    ensures IsBoard(Compact(b)) && |Compact(b)| == |b| && Width(Compact(b)) == Width(b)
    ensures var cs := NonEmptyColumns(b, Width(b));
      && (forall c | 0 <= c < Width(b) :: HasBlock(b, c) <==> c in cs)
      && (forall i, j | 0 <= i < j < |cs| :: cs[i] < cs[j])
      && (forall j | 0 <= j < |cs| :: Column(Compact(b), j) == Column(b, cs[j]))
      && (forall j | |cs| <= j < Width(b) :: Column(Compact(b), j) == Empties(|b|))
  {
    CompactShape(b);
    NonEmptyColumnsExact(b, Width(b));
  }

  /** Compacting a compacted board changes nothing. */
  lemma CompactIdempotent(b: Board)
    requires IsBoard(b)
    ensures IsBoard(Compact(b)) && Compact(Compact(b)) == Compact(b)
  {
    var b' := Compact(b);
    var cs := NonEmptyColumns(b, Width(b));
    CompactColumns(b);
    forall c | 0 <= c < Width(b) ensures HasBlock(b', c) <==> c < |cs| {
      if c < |cs| {
        assert HasBlock(b, cs[c]);
        var r :| 0 <= r < |b| && b[r][cs[c]].Some?;
        assert b'[r][c] == b[r][cs[c]];
      }
    }
    NonEmptyColumnsAllFirst(b', Width(b), |cs|);
    CompactShape(b');
    forall c | 0 <= c < Width(b) ensures Column(Compact(b'), c) == Column(b', c) {
    }
    ColumnsDetermineBoard(Compact(b'), b');
  }

  lemma SettleOfEmpties(n: nat)
    ensures Settle(Empties(n)) == Empties(n)
  {
    OccupantsOfEmpties(n);
  }

  /** The full collapse (gravity, then compaction) is idempotent. */
  lemma CollapseIdempotent(b: Board)
    requires IsBoard(b)
    ensures IsBoard(Gravity(b)) && IsBoard(Compact(Gravity(b)))
    ensures var once := Compact(Gravity(b));
      IsBoard(Gravity(once)) && IsBoard(Compact(Gravity(once))) && Compact(Gravity(once)) == once
  {
    var g := Gravity(b);
    GravitySettlesColumns(b);
    var once := Compact(g);
    var cs := NonEmptyColumns(g, Width(g));
    CompactColumns(g);
    GravityShape(once);
    forall c | 0 <= c < Width(b) ensures Column(Gravity(once), c) == Column(once, c) {
      GravityColumn(once, c);
      if c < |cs| {
        SettleIdempotent(Column(b, cs[c]));
      } else {
        SettleOfEmpties(|b|);
      }
    }
    ColumnsDetermineBoard(Gravity(once), once);
    CompactIdempotent(g);
  }
}
