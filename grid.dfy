/**
 * The square board of the flood-fill game and the notion of 4-connected
 * region on it: which cells a flood fill from a seed may enter, which cells
 * are reachable from it, and the component the engine calls its filled region.
 */
module Grid {

  /** A cell colour; the game uses the six hex strings of its palette. */
  type Color = string

  /** The board, row by row; `g[r][c]` is the colour of row r, column c. */
  type Board = seq<seq<Color>>

  /** A coordinate pair (row, column); it replaces the source's "r-c" string keys. */
  type Cell = (int, int)

  /** Every row is as long as the board has rows. */
  predicate IsSquare(g: Board)
  {
    forall i :: 0 <= i < |g| ==> |g[i]| == |g|
  }

  /** Both coordinates are checked against the row count, as the game does. */
  predicate InBounds(n: int, p: Cell)
  {
    0 <= p.0 < n && 0 <= p.1 < n
  }

  /** p names a cell of the board. */
  predicate OnBoard(g: Board, p: Cell)
  {
    0 <= p.0 < |g| && 0 <= p.1 < |g[p.0]|
  }

  /**
   * The test a flood fill applies before it enters a cell: in bounds and of
   * colour `t`. A column past the end of its row reads as no colour at all.
   */
  predicate Matches(g: Board, t: Color, p: Cell)
  {
    InBounds(|g|, p) && p.1 < |g[p.0]| && g[p.0][p.1] == t
  }

  /** The four neighbour offsets, in the order the game visits them. */
  const Directions: seq<Cell> := [(1, 0), (-1, 0), (0, 1), (0, -1)]

  function Shift(p: Cell, d: Cell): Cell
  {
    (p.0 + d.0, p.1 + d.1)
  }

  /** q lies directly north, south, east or west of p. */
  predicate Adjacent(p: Cell, q: Cell)
  {
    q == (p.0 + 1, p.1) || q == (p.0 - 1, p.1) || q == (p.0, p.1 + 1) || q == (p.0, p.1 - 1)
  }

  /** Every cell of the board. */
  ghost function AllCells(n: int): set<Cell>
  {
    set i, j | 0 <= i < n && 0 <= j < n :: (i, j)
  }

  /** A walk through 4-neighbour steps over cells of colour `t`. */
  ghost predicate IsPath(g: Board, t: Color, path: seq<Cell>)
  {
    && |path| > 0
    && (forall i :: 0 <= i < |path| ==> Matches(g, t, path[i]))
    && (forall i :: 0 < i < |path| ==> Adjacent(path[i - 1], path[i]))
  }

  ghost predicate Reachable(g: Board, t: Color, a: Cell, b: Cell)
  {
    exists path :: IsPath(g, t, path) && path[0] == a && path[|path| - 1] == b
  }

  /** The 4-connected component of `o` among the cells of colour `t`. */
  ghost function Component(g: Board, t: Color, o: Cell): set<Cell>
  {
    set i, j | 0 <= i < |g| && 0 <= j < |g| && Reachable(g, t, o, (i, j)) :: (i, j)
  }

  /** A cell next to nothing unabsorbed: if q may be entered, it is in S. */
  predicate Absorbs(g: Board, t: Color, S: set<Cell>, q: Cell)
  {
    Matches(g, t, q) ==> q in S
  }

  /** Every neighbour of p that a flood fill may enter is already in S. */
  predicate ClosedAt(g: Board, t: Color, S: set<Cell>, p: Cell)
  {
    && Absorbs(g, t, S, (p.0 + 1, p.1))
    && Absorbs(g, t, S, (p.0 - 1, p.1))
    && Absorbs(g, t, S, (p.0, p.1 + 1))
    && Absorbs(g, t, S, (p.0, p.1 - 1))
  }

  /** No flood fill can leave S: S is closed under matching 4-neighbour steps. */
  predicate Closed(g: Board, t: Color, S: set<Cell>)
  {
    forall p {:trigger ClosedAt(g, t, S, p)} :: p in S ==> ClosedAt(g, t, S, p)
  }

  /** The board with every cell of S painted `c` and the rest as it was. */
  ghost function Recolored(g: Board, S: set<Cell>, c: Color): (r: Board)
    ensures |r| == |g|
    ensures forall i :: 0 <= i < |g| ==> |r[i]| == |g[i]|
  {
    seq(|g|, i requires 0 <= i < |g| =>
      seq(|g[i]|, j requires 0 <= j < |g[i]| => if (i, j) in S then c else g[i][j]))
  }

  // ---------------------------------------------------------------------
  // Paths and reachability

  lemma InAllCells(n: int, p: Cell)
    ensures p in AllCells(n) <==> InBounds(n, p)
  {
    if InBounds(n, p) {
      assert p == (p.0, p.1);
    }
  }

  lemma ReachableRefl(g: Board, t: Color, a: Cell)
    requires Matches(g, t, a)
    ensures Reachable(g, t, a, a)
  {
    assert IsPath(g, t, [a]);
  }

  /** A reachable cell and its start both satisfy the entry test. */
  lemma ReachableEnds(g: Board, t: Color, a: Cell, b: Cell)
    requires Reachable(g, t, a, b)
    ensures Matches(g, t, a) && Matches(g, t, b)
  {
    var path :| IsPath(g, t, path) && path[0] == a && path[|path| - 1] == b;
    assert Matches(g, t, path[|path| - 1]);
  }

  /** One more matching step at the far end. */
  lemma ReachableExtend(g: Board, t: Color, a: Cell, b: Cell, c: Cell)
    requires Reachable(g, t, a, b) && Adjacent(b, c) && Matches(g, t, c)
    ensures Reachable(g, t, a, c)
  {
    var path :| IsPath(g, t, path) && path[0] == a && path[|path| - 1] == b;
    var path' := path + [c];
    assert IsPath(g, t, path');
  }

  /** One more matching step at the near end. */
  lemma ReachablePrepend(g: Board, t: Color, a: Cell, b: Cell, c: Cell)
    requires Matches(g, t, a) && Adjacent(a, b) && Reachable(g, t, b, c)
    ensures Reachable(g, t, a, c)
  {
    var path :| IsPath(g, t, path) && path[0] == b && path[|path| - 1] == c;
    var path' := [a] + path;
    assert IsPath(g, t, path') by {
      forall i | 0 < i < |path'|
        ensures Adjacent(path'[i - 1], path'[i])
      {
        if i > 1 {
          assert path'[i - 1] == path[i - 2] && path'[i] == path[i - 1];
        }
      }
    }
  }

  // ---------------------------------------------------------------------
  // The component

  /** Membership in the component is reachability from its seed. */
  lemma InComponent(g: Board, t: Color, o: Cell, p: Cell)
    ensures p in Component(g, t, o) <==> Reachable(g, t, o, p)
  {
    if Reachable(g, t, o, p) {
      ReachableEnds(g, t, o, p);
      assert p == (p.0, p.1);
    }
  }

  /** Every cell of the component is on the board and has colour t. */
  lemma ComponentMatches(g: Board, t: Color, o: Cell, p: Cell)
    requires p in Component(g, t, o)
    ensures Matches(g, t, p) && p in AllCells(|g|)
  {
    InComponent(g, t, o, p);
    ReachableEnds(g, t, o, p);
    InAllCells(|g|, p);
  }

  lemma ComponentInBounds(g: Board, t: Color, o: Cell)
    ensures Component(g, t, o) <= AllCells(|g|)
  {
    forall p | p in Component(g, t, o)
      ensures p in AllCells(|g|)
    {
      ComponentMatches(g, t, o, p);
    }
  }

  /** The seed belongs to its own component exactly when it may be entered. */
  lemma ComponentOrigin(g: Board, t: Color, o: Cell)
    ensures o in Component(g, t, o) <==> Matches(g, t, o)
  {
    InComponent(g, t, o, o);
    if Matches(g, t, o) {
      ReachableRefl(g, t, o);
    } else if o in Component(g, t, o) {
      ComponentMatches(g, t, o, o);
    }
  }

  /** The component is closed: a flood fill started inside it cannot leave it. */
  lemma ComponentClosed(g: Board, t: Color, o: Cell)
    ensures Closed(g, t, Component(g, t, o))
  {
    var C := Component(g, t, o);
    forall p, q | p in C && Adjacent(p, q) && Matches(g, t, q)
      ensures q in C
    {
      InComponent(g, t, o, p);
      ReachableExtend(g, t, o, p, q);
      InComponent(g, t, o, q);
    }
  }

  /** Stepping from a matching cell to a neighbour only shrinks the component. */
  lemma ComponentStep(g: Board, t: Color, p: Cell, q: Cell)
    requires Matches(g, t, p) && Adjacent(p, q)
    ensures Component(g, t, q) <= Component(g, t, p)
  {
    forall x | x in Component(g, t, q)
      ensures x in Component(g, t, p)
    {
      InComponent(g, t, q, x);
      ReachablePrepend(g, t, p, q, x);
      InComponent(g, t, p, x);
    }
  }

  lemma {:induction false} PathInside(g: Board, t: Color, S: set<Cell>, path: seq<Cell>)
    requires IsPath(g, t, path) && path[0] in S && Closed(g, t, S)
    ensures forall i :: 0 <= i < |path| ==> path[i] in S
  {
    if |path| > 1 {
      var front := path[..|path| - 1];
      assert IsPath(g, t, front);
      PathInside(g, t, S, front);
      var last := |path| - 1;
      assert path[last - 1] == front[last - 1];
      assert ClosedAt(g, t, S, path[last - 1]);
      assert Adjacent(path[last - 1], path[last]) && Matches(g, t, path[last]);
    }
  }

  /** A closed set holding the seed holds its whole component. */
  lemma ClosedContainsComponent(g: Board, t: Color, o: Cell, S: set<Cell>)
    requires o in S && Closed(g, t, S)
    ensures Component(g, t, o) <= S
  {
    forall p | p in Component(g, t, o)
      ensures p in S
    {
      InComponent(g, t, o, p);
      var path :| IsPath(g, t, path) && path[0] == o && path[|path| - 1] == p;
      PathInside(g, t, S, path);
    }
  }

  /**
   * The characterisation a flood fill is proved against: a closed set of
   * component cells that holds the seed is the component.
   */
  lemma ComponentExact(g: Board, t: Color, o: Cell, S: set<Cell>)
    requires o in S && S <= Component(g, t, o) && Closed(g, t, S)
    ensures S == Component(g, t, o)
  {
    ClosedContainsComponent(g, t, o, S);
  }

  // ---------------------------------------------------------------------
  // Recolouring

  lemma RecoloredAt(g: Board, S: set<Cell>, c: Color, p: Cell)
    requires OnBoard(g, p)
    ensures Recolored(g, S, c)[p.0][p.1] == if p in S then c else g[p.0][p.1]
  {
    assert p == (p.0, p.1);
  }

  /** Painting one more cell of the board extends the painted set by that cell. */
  lemma RecolorOneMore(g: Board, S: set<Cell>, c: Color, p: Cell)
    requires OnBoard(g, p)
    ensures var h := Recolored(g, S, c); h[p.0 := h[p.0][p.1 := c]] == Recolored(g, S + {p}, c)
  {
    var h := Recolored(g, S, c);
    var h' := h[p.0 := h[p.0][p.1 := c]];
    var r := Recolored(g, S + {p}, c);
    forall i | 0 <= i < |g|
      ensures h'[i] == r[i]
    {
      forall j | 0 <= j < |g[i]|
        ensures h'[i][j] == r[i][j]
      {
        RecoloredAt(g, S, c, (i, j));
        RecoloredAt(g, S + {p}, c, (i, j));
      }
    }
  }

  lemma RecoloredEmpty(g: Board, c: Color)
    ensures Recolored(g, {}, c) == g
  {
    var r := Recolored(g, {}, c);
    forall i | 0 <= i < |g|
      ensures r[i] == g[i]
    {
      forall j | 0 <= j < |g[i]|
        ensures r[i][j] == g[i][j]
      {
        RecoloredAt(g, {}, c, (i, j));
      }
    }
  }

  /** Every cell on a path from the seed belongs to the seed's component. */
  lemma PathInComponent(g: Board, t: Color, o: Cell, path: seq<Cell>, i: int)
    requires IsPath(g, t, path) && path[0] == o && 0 <= i < |path|
    ensures path[i] in Component(g, t, o)
  {
    var prefix := path[..i + 1];
    assert IsPath(g, t, prefix);
    assert prefix[|prefix| - 1] == path[i];
    InComponent(g, t, o, path[i]);
  }

  /** A path through painted cells is a path in the paint colour. */
  lemma PathRecolored(g: Board, t: Color, path: seq<Cell>, S: set<Cell>, c: Color)
    requires IsPath(g, t, path)
    requires forall i :: 0 <= i < |path| ==> path[i] in S
    ensures IsPath(Recolored(g, S, c), c, path)
  {
    var h := Recolored(g, S, c);
    forall i | 0 <= i < |path|
      ensures Matches(h, c, path[i])
    {
      assert Matches(g, t, path[i]);
      RecoloredAt(g, S, c, path[i]);
    }
  }

  /**
   * Painting a component in a new colour keeps it connected: every cell of
   * the old component is reachable from the seed through cells of the new colour.
   */
  lemma RecolorKeepsComponent(g: Board, t: Color, o: Cell, c: Color)
    ensures Component(g, t, o) <= Component(Recolored(g, Component(g, t, o), c), c, o)
  {
    var C := Component(g, t, o);
    var h := Recolored(g, C, c);
    forall p | p in C
      ensures p in Component(h, c, o)
    {
      InComponent(g, t, o, p);
      var path :| IsPath(g, t, path) && path[0] == o && path[|path| - 1] == p;
      forall i | 0 <= i < |path|
        ensures path[i] in C
      {
        PathInComponent(g, t, o, path, i);
      }
      PathRecolored(g, t, path, C, c);
      InComponent(h, c, o, p);
    }
  }

  // ---------------------------------------------------------------------
  // A board of one colour

  /** Every cell of the board is of colour c. */
  predicate Monochrome(g: Board, c: Color)
  {
    forall i, j :: 0 <= i < |g| && 0 <= j < |g[i]| ==> g[i][j] == c
  }

  /** On a board of one colour every cell is reachable from the top-left corner. */
  lemma {:induction false} UniformReachable(g: Board, t: Color, p: Cell)
    requires IsSquare(g)
    requires Monochrome(g, t)
    requires InBounds(|g|, p)
    ensures Reachable(g, t, (0, 0), p)
    decreases p.0, p.1
  {
    if p.1 > 0 {
      UniformReachable(g, t, (p.0, p.1 - 1));
      ReachableExtend(g, t, (0, 0), (p.0, p.1 - 1), p);
    } else if p.0 > 0 {
      UniformReachable(g, t, (p.0 - 1, p.1));
      ReachableExtend(g, t, (0, 0), (p.0 - 1, p.1), p);
    } else {
      ReachableRefl(g, t, p);
    }
  }

  /** Cells of rows below k. */
  ghost function Rows(k: int, n: int): set<Cell>
  {
    set i, j | 0 <= i < k && 0 <= j < n :: (i, j)
  }

  ghost function Row(i: int, n: int): set<Cell>
  {
    set j | 0 <= j < n :: (i, j)
  }

  lemma {:induction false} RowSize(i: int, n: nat)
    ensures |Row(i, n)| == n
  {
    if n > 0 {
      RowSize(i, n - 1);
      assert Row(i, n) == Row(i, n - 1) + {(i, n - 1)};
    } else {
      assert Row(i, n) == {};
    }
  }

  lemma RowsSplit(k: int, n: int)
    requires k > 0
    ensures Rows(k, n) == Rows(k - 1, n) + Row(k - 1, n)
    ensures Rows(k - 1, n) * Row(k - 1, n) == {}
  {
    forall p | p in Rows(k, n)
      ensures p in Rows(k - 1, n) + Row(k - 1, n)
    {
      if p.0 < k - 1 {
        assert p in Rows(k - 1, n) by { assert p == (p.0, p.1); }
      } else {
        assert p in Row(k - 1, n) by { assert p == (k - 1, p.1); }
      }
    }
  }

  lemma {:induction false} RowsSize(k: nat, n: nat)
    ensures |Rows(k, n)| == k * n
  {
    if k > 0 {
      RowsSize(k - 1, n);
      RowSize(k - 1, n);
      RowsSplit(k, n);
      calc {
        |Rows(k, n)|;
        |Rows(k - 1, n)| + |Row(k - 1, n)|;
        (k - 1) * n + n;
        { MulSucc(k - 1, n); }
        k * n;
      }
    } else {
      assert Rows(k, n) == {};
    }
  }

  /** Distributivity of one more row, as a hint for the nonlinear step above. */
  lemma MulSucc(a: int, n: int)
    ensures (a + 1) * n == a * n + n
  {
  }

  /** A subset is no larger than its superset. */
  lemma SubsetSize(A: set<Cell>, B: set<Cell>)
    requires A <= B
    ensures |A| <= |B|
  {
    assert B == A + (B - A);
  }

  /** The board has n * n cells. */
  lemma AllCellsSize(n: nat)
    ensures |AllCells(n)| == n * n
  {
    RowsSize(n, n);
    assert AllCells(n) == Rows(n, n);
  }

  /** A set of board cells as large as the board is the whole board. */
  lemma FullIsAll(n: nat, S: set<Cell>)
    requires S <= AllCells(n)
    ensures |S| == n * n <==> S == AllCells(n)
  {
    AllCellsSize(n);
    var rest := AllCells(n) - S;
    assert AllCells(n) == S + rest && S * rest == {};
    if |S| == n * n {
      assert |rest| == 0;
      assert rest == {};
    }
  }
}
