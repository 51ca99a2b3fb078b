/** The board value of the tile-elimination game: cells, coordinates, the
    implicit 4-neighbour grid graph, and connected same-colour components.
    Everything here is a pure value; the mutable board object is in GridADT. */
module Board {

  datatype Option<T> = None | Some(value: T)

  /** The palette `COLORS = ['R', 'G', 'B', 'Y']`. */
  datatype Color = R | G | B | Y

  /** A cell is empty (`None` in the source) or holds a colour. */
  type Cell = Option<Color>

  /** A coordinate `(row, column)`; it may lie outside the board. */
  type Pos = (int, int)

  /** Row-major cell matrix: `b[r][c]`, as in `grid.board`. */
  type Board = seq<seq<Cell>>

  function Width(b: Board): nat {
    if |b| == 0 then 0 else |b[0]|
  }

  /** A non-empty rectangular matrix. */
  predicate IsBoard(b: Board) {
    |b| > 0 && |b[0]| > 0 && forall r | 0 <= r < |b| :: |b[r]| == |b[0]|
  }

  predicate InBounds(b: Board, p: Pos) {
    0 <= p.0 < |b| && 0 <= p.1 < |b[p.0]|
  }

  function At(b: Board, p: Pos): Cell
    requires InBounds(b, p)
  {
    b[p.0][p.1]
  }

  /** Every in-bounds coordinate of the board. */
  function AllPos(b: Board): (s: set<Pos>)
    requires IsBoard(b)
    ensures forall p :: p in s <==> InBounds(b, p)
  {
    set r, c | 0 <= r < |b| && 0 <= c < Width(b) :: (r, c)
  }

  /** Two coordinates at Manhattan distance one. */
  predicate Adjacent(p: Pos, q: Pos) {
    (p.0 == q.0 && (p.1 - q.1 == 1 || q.1 - p.1 == 1)) ||
    (p.1 == q.1 && (p.0 - q.0 == 1 || q.0 - p.0 == 1))
  }

  /** `GraphADT.neighbors`: down, up, right, left; no bounds check. */
  function Neighbors(r: int, c: int): (ns: seq<Pos>)
    ensures |ns| == 4
    ensures forall q :: q in ns <==> Adjacent((r, c), q)
  {
    [(r + 1, c), (r - 1, c), (r, c + 1), (r, c - 1)]
  }

  /** A non-empty walk of 4-adjacent in-bounds cells, all holding `color`. */
  ghost predicate SameColorPath(b: Board, path: seq<Pos>, color: Cell) {
    && |path| > 0
    && (forall i | 0 <= i < |path| :: InBounds(b, path[i]) && At(b, path[i]) == color)
    && (forall i | 0 <= i < |path| - 1 :: Adjacent(path[i], path[i + 1]))
  }

  ghost predicate Connected(b: Board, s: Pos, t: Pos)
    requires InBounds(b, s)
  {
    exists path :: SameColorPath(b, path, At(b, s)) && path[0] == s && path[|path| - 1] == t
  }

  /** The component at `s`: every cell a same-colour 4-adjacent walk from `s`
      reaches. Empty when `s` is outside the board or on an empty cell. */
  ghost function Component(b: Board, s: Pos): set<Pos>
    requires IsBoard(b)
  {
    if InBounds(b, s) && At(b, s).Some? then
      set t | t in AllPos(b) && Connected(b, s, t)
    else {}
  }

  /** No in-bounds neighbour of a member holding `color` is left out. */
  ghost predicate ClosedUnder(b: Board, S: set<Pos>, color: Cell) {
    forall x, q :: x in S && q in Neighbors(x.0, x.1) && InBounds(b, q) && At(b, q) == color ==> q in S
  }

  /** Nothing is left to remove when every component has fewer than two cells. */
  ghost predicate Terminal(b: Board)
    requires IsBoard(b)
  {
    forall p | p in AllPos(b) :: |Component(b, p)| < 2
  }

  lemma ComponentMembers(b: Board, s: Pos, t: Pos)
    requires IsBoard(b) && t in Component(b, s)
    ensures InBounds(b, s) && At(b, s).Some?
    ensures InBounds(b, t) && At(b, t) == At(b, s)
  {
    var path :| SameColorPath(b, path, At(b, s)) && path[0] == s && path[|path| - 1] == t;
    assert InBounds(b, path[|path| - 1]);
  }

  lemma ComponentHasStart(b: Board, s: Pos)
    requires IsBoard(b) && InBounds(b, s) && At(b, s).Some?
    ensures s in Component(b, s)
  {
    assert SameColorPath(b, [s], At(b, s));
  }

  lemma {:induction false} ComponentClosed(b: Board, s: Pos)
    requires IsBoard(b) && InBounds(b, s) && At(b, s).Some?
    ensures ClosedUnder(b, Component(b, s), At(b, s))
  {
    forall x, q | x in Component(b, s) && q in Neighbors(x.0, x.1) && InBounds(b, q) && At(b, q) == At(b, s)
      ensures q in Component(b, s)
    {
      var path :| SameColorPath(b, path, At(b, s)) && path[0] == s && path[|path| - 1] == x;
      var longer := path + [q];
      assert SameColorPath(b, longer, At(b, s)) by {
        forall i | 0 <= i < |longer| - 1 ensures Adjacent(longer[i], longer[i + 1]) {
          if i == |path| - 1 {
            assert longer[i] == x && longer[i + 1] == q;
          } else {
            assert longer[i] == path[i] && longer[i + 1] == path[i + 1];
          }
        }
      }
      assert longer[0] == s && longer[|longer| - 1] == q;
    }
  }

  lemma {:induction false} PathStaysInClosed(b: Board, S: set<Pos>, color: Cell, path: seq<Pos>)
    requires SameColorPath(b, path, color) && path[0] in S && ClosedUnder(b, S, color)
    ensures forall i | 0 <= i < |path| :: path[i] in S
  {
    if |path| > 1 {
      var front := path[..|path| - 1];
      assert SameColorPath(b, front, color) by {
        forall i | 0 <= i < |front| - 1 ensures Adjacent(front[i], front[i + 1]) {
          assert front[i] == path[i] && front[i + 1] == path[i + 1];
        }
      }
      PathStaysInClosed(b, S, color, front);
      var x, q := path[|path| - 2], path[|path| - 1];
      assert x == front[|front| - 1] && x in S;
      assert Adjacent(x, q);
      assert q in Neighbors(x.0, x.1);
      assert InBounds(b, q) && At(b, q) == color;
      assert q in S;
      forall i | 0 <= i < |path| ensures path[i] in S {
        if i < |path| - 1 {
          assert path[i] == front[i];
        }
      }
    }
  }

  /** The component is the least closed set holding the start cell. */
  lemma ComponentLeast(b: Board, s: Pos, S: set<Pos>)
    requires IsBoard(b) && InBounds(b, s) && At(b, s).Some?
    requires s in S && ClosedUnder(b, S, At(b, s))
    ensures Component(b, s) <= S
  {
    forall t | t in Component(b, s) ensures t in S {
      var path :| SameColorPath(b, path, At(b, s)) && path[0] == s && path[|path| - 1] == t;
      PathStaysInClosed(b, S, At(b, s), path);
    }
  }

  lemma {:induction false} ReverseConnected(b: Board, s: Pos, t: Pos)
    requires IsBoard(b) && t in Component(b, s)
    ensures s in Component(b, t)
  {
    ComponentMembers(b, s, t);
    var path :| SameColorPath(b, path, At(b, s)) && path[0] == s && path[|path| - 1] == t;
    var back := seq(|path|, i requires 0 <= i < |path| => path[|path| - 1 - i]);
    assert SameColorPath(b, back, At(b, t)) by {
      forall i | 0 <= i < |back| - 1 ensures Adjacent(back[i], back[i + 1]) {
        assert back[i] == path[|path| - 1 - i] && back[i + 1] == path[|path| - 2 - i];
        assert Adjacent(path[|path| - 2 - i], path[|path| - 1 - i]);
      }
    }
    assert back[0] == t && back[|back| - 1] == s;
  }

  /** Components of two cells are equal as soon as one cell lies in the other's. */
  lemma ComponentShared(b: Board, s: Pos, t: Pos)
    requires IsBoard(b) && t in Component(b, s)
    ensures Component(b, t) == Component(b, s)
  {
    ComponentMembers(b, s, t);
    ComponentClosed(b, s);
    ComponentClosed(b, t);
    ComponentHasStart(b, t);
    ReverseConnected(b, s, t);
    ComponentLeast(b, t, Component(b, s));
    ComponentLeast(b, s, Component(b, t));
  }
}
