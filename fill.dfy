/**
 * The two flood fills of the game: the recursive one that computes the
 * starting region, and the worklist one that grows the region after a
 * recolouring move. Both are proved to produce the 4-connected component
 * of the top-left corner.
 */
module Fill {
  import opened Grid

  datatype Option<T> = None | Some(value: T)

  /**
   * fillCells: a depth-first fill from (row, col) over cells of colour
   * `target`, threading the set of visited cells through the recursion.
   * What it adds to `visited` is connected to (row, col), is closed under
   * matching neighbour steps, and includes (row, col) when that cell may be
   * entered; with an empty `visited`, it is the whole component (see
   * FillFromCorner).
   */
  method FillCells(grid: Board, row: int, col: int, target: Color, visited: set<Cell>)
    returns (result: set<Cell>)
    requires IsSquare(grid)
    ensures visited <= result
    ensures result - visited <= Component(grid, target, (row, col))
    ensures forall p {:trigger ClosedAt(grid, target, result, p)} :: p in result - visited ==> ClosedAt(grid, target, result, p)
    ensures Matches(grid, target, (row, col)) ==> (row, col) in result
    decreases AllCells(|grid|) - visited
  {
    if row < 0 || col < 0 || row >= |grid| || col >= |grid| {
      return visited;
    }
    var key := (row, col);
    if key in visited || grid[row][col] != target {
      return visited;
    }

    InAllCells(|grid|, key);
    ComponentOrigin(grid, target, key);
    ComponentStep(grid, target, key, (row + 1, col));
    ComponentStep(grid, target, key, (row - 1, col));
    ComponentStep(grid, target, key, (row, col + 1));
    ComponentStep(grid, target, key, (row, col - 1));

    var r1 := FillCells(grid, row + 1, col, target, visited + {key});
    var r2 := FillCells(grid, row - 1, col, target, r1);
    var r3 := FillCells(grid, row, col + 1, target, r2);
    result := FillCells(grid, row, col - 1, target, r3);

    ClosedAfterVisits(grid, target, key, visited, r1, r2, r3, result);
    AddedWithin(visited, key, r1, r2, r3, result, Component(grid, target, key),
                Component(grid, target, (row + 1, col)), Component(grid, target, (row - 1, col)),
                Component(grid, target, (row, col + 1)), Component(grid, target, (row, col - 1)));
  }

  /**
   * Set bookkeeping of the four recursive calls: what each call added lies in
   * a set contained in `c`, and `key` is in `c`, so all that was added since
   * `v` lies in `c`.
   */
  lemma AddedWithin<T>(v: set<T>, key: T, r1: set<T>, r2: set<T>, r3: set<T>, r4: set<T>,
                       c: set<T>, c1: set<T>, c2: set<T>, c3: set<T>, c4: set<T>)
    requires v + {key} <= r1 <= r2 <= r3 <= r4
    requires key in c && c1 <= c && c2 <= c && c3 <= c && c4 <= c
    requires r1 - (v + {key}) <= c1 && r2 - r1 <= c2 && r3 - r2 <= c3 && r4 - r3 <= c4
    ensures r4 - v <= c
  {
  }

  /**
   * After the four recursive calls, every cell added since `v` is closed: the
   * cells each call added were closed when it returned and stay closed as the
   * set grows, and each neighbour of `key` that may be entered was added by
   * the call made on it.
   */
  lemma ClosedAfterVisits(grid: Board, target: Color, key: Cell, v: set<Cell>,
                          r1: set<Cell>, r2: set<Cell>, r3: set<Cell>, r4: set<Cell>)
    requires v + {key} <= r1 <= r2 <= r3 <= r4
    requires forall p {:trigger ClosedAt(grid, target, r1, p)} :: p in r1 - (v + {key}) ==> ClosedAt(grid, target, r1, p)
    requires forall p {:trigger ClosedAt(grid, target, r2, p)} :: p in r2 - r1 ==> ClosedAt(grid, target, r2, p)
    requires forall p {:trigger ClosedAt(grid, target, r3, p)} :: p in r3 - r2 ==> ClosedAt(grid, target, r3, p)
    requires forall p {:trigger ClosedAt(grid, target, r4, p)} :: p in r4 - r3 ==> ClosedAt(grid, target, r4, p)
    requires Matches(grid, target, (key.0 + 1, key.1)) ==> (key.0 + 1, key.1) in r1
    requires Matches(grid, target, (key.0 - 1, key.1)) ==> (key.0 - 1, key.1) in r2
    requires Matches(grid, target, (key.0, key.1 + 1)) ==> (key.0, key.1 + 1) in r3
    requires Matches(grid, target, (key.0, key.1 - 1)) ==> (key.0, key.1 - 1) in r4
    ensures forall p {:trigger ClosedAt(grid, target, r4, p)} :: p in r4 - v ==> ClosedAt(grid, target, r4, p)
  {
    forall p | p in r4 - v
      ensures ClosedAt(grid, target, r4, p)
    {
      if p == key {
        assert ClosedAt(grid, target, r4, key);
      } else if p in r1 - (v + {key}) {
        assert ClosedAt(grid, target, r1, p);
      } else if p in r2 - r1 {
        assert ClosedAt(grid, target, r2, p);
      } else if p in r3 - r2 {
        assert ClosedAt(grid, target, r3, p);
      }
    }
  }

  /**
   * The call `fillCells(grid, row, col, target)` with `visited` left to its
   * default empty set. It returns the visited set only when the seed cell may
   * be entered (otherwise the source returns `undefined`, here None), and that
   * set is then exactly the seed's component.
   */
  method FillFrom(grid: Board, row: int, col: int, target: Color) returns (r: Option<set<Cell>>)
    requires IsSquare(grid)
    ensures r.Some? <==> Matches(grid, target, (row, col))
    ensures r.Some? ==> r.value == Component(grid, target, (row, col))
  {
    var visited := FillCells(grid, row, col, target, {});
    if Matches(grid, target, (row, col)) {
      ComponentExact(grid, target, (row, col), visited);
      r := Some(visited);
    } else {
      r := None;
    }
  }

  /** `[...filledCells]`: the cells of a set, listed in some order. */
  method Elements(s: set<Cell>) returns (q: seq<Cell>)
    ensures forall p :: p in s <==> p in q
    ensures |q| == |s|
  {
    q := [];
    var rest := s;
    while rest != {}
      invariant rest <= s
      invariant forall p :: p in q <==> p in s - rest
      invariant |q| == |s - rest|
      decreases rest
    {
      var p :| p in rest;
      assert s - (rest - {p}) == (s - rest) + {p};
      q := q + [p];
      rest := rest - {p};
    }
    assert s - rest == s;
  }

  /**
   * What a visit of a popped cell's neighbours has done so far to the region
   * and the worklist: the new cells are matching neighbours of the popped
   * cell, each pushed once at the end of the worklist, whose old entries
   * stay in place.
   */
  ghost predicate Grown(grid: Board, color: Color, cell: Cell,
                        region: set<Cell>, queue: seq<Cell>, region': set<Cell>, queue': seq<Cell>)
  {
    && region <= region'
    && (forall p :: p in region' - region ==> Matches(grid, color, p) && Adjacent(cell, p))
    && |queue| <= |queue'| && queue'[..|queue|] == queue
    && (forall i :: |queue| <= i < |queue'| ==> queue'[i] in region' - region)
    && (forall p :: p in region' - region ==> p in queue'[|queue|..])
    && |queue'| - |queue| == |region' - region|
  }

  /**
   * The body of the `forEach`: a neighbour on the board, not yet in the
   * region and of colour `color` joins the region and is pushed.
   */
  method VisitNeighbour(grid: Board, color: Color, cell: Cell, next: Cell,
                        region: set<Cell>, queue: seq<Cell>, region': set<Cell>, queue': seq<Cell>)
    returns (region'': set<Cell>, queue'': seq<Cell>)
    requires IsSquare(grid) && Adjacent(cell, next)
    requires Grown(grid, color, cell, region, queue, region', queue')
    ensures Grown(grid, color, cell, region, queue, region'', queue'')
    ensures region' <= region'' && region'' - region' <= {next}
    ensures |queue'| <= |queue''| && queue''[..|queue'|] == queue'
    ensures Absorbs(grid, color, region'', next)
  {
    region'', queue'' := region', queue';
    if 0 <= next.0 < |grid| && 0 <= next.1 < |grid| && next !in region' && grid[next.0][next.1] == color {
      AddOneMore(region, region', next);
      region'' := region' + {next};
      queue'' := queue' + [next];
      assert queue''[..|queue|] == queue'[..|queue|];
      assert queue''[|queue|..] == queue'[|queue|..] + [next];
    }
  }

  /**
   * One pass of the `forEach` over the four neighbours of a popped cell:
   * each neighbour that is on the board, not yet in the region and of colour
   * `color` joins the region and is pushed on the worklist. Afterwards the
   * popped cell has no unabsorbed neighbour of that colour.
   */
  method VisitNeighbours(grid: Board, color: Color, cell: Cell, region: set<Cell>, queue: seq<Cell>)
    returns (region': set<Cell>, queue': seq<Cell>)
    requires IsSquare(grid)
    requires cell in region
    ensures region <= region'
    ensures forall p :: p in region' - region ==> Matches(grid, color, p) && Adjacent(cell, p)
    ensures |queue| <= |queue'| && queue'[..|queue|] == queue
    ensures forall i :: |queue| <= i < |queue'| ==> queue'[i] in region' - region
    ensures forall p :: p in region' - region ==> p in queue'[|queue|..]
    ensures |queue'| - |queue| == |region' - region|
    ensures ClosedAt(grid, color, region', cell)
    ensures region' == region ==> queue' == queue
  {
    region', queue' := region, queue;
    for k := 0 to |Directions|
      invariant Grown(grid, color, cell, region, queue, region', queue')
      invariant forall j :: 0 <= j < k ==> Absorbs(grid, color, region', Shift(cell, Directions[j]))
    {
      ghost var before := region';
      region', queue' := VisitNeighbour(grid, color, cell, Shift(cell, Directions[k]), region, queue, region', queue');
      forall j | 0 <= j < k
        ensures Absorbs(grid, color, region', Shift(cell, Directions[j]))
      {
        assert Absorbs(grid, color, before, Shift(cell, Directions[j]));
      }
    }
    assert Shift(cell, Directions[0]) == (cell.0 + 1, cell.1);
    assert Shift(cell, Directions[1]) == (cell.0 - 1, cell.1);
    assert Shift(cell, Directions[2]) == (cell.0, cell.1 + 1);
    assert Shift(cell, Directions[3]) == (cell.0, cell.1 - 1);
    if region' == region {
      assert queue' == queue'[..|queue|];
    }
  }

  /** Adding a cell not yet in the grown region adds one new cell. */
  lemma AddOneMore(region: set<Cell>, region': set<Cell>, next: Cell)
    requires region <= region' && next !in region'
    ensures |(region' + {next}) - region| == |region' - region| + 1
  {
    assert next !in region' - region;
    assert (region' + {next}) - region == (region' - region) + {next};
  }

  /** Matching neighbours of a cell of a closed set belong to that set. */
  lemma AbsorbNeighbours(grid: Board, color: Color, cell: Cell, region: set<Cell>, region': set<Cell>, comp: set<Cell>)
    requires Closed(grid, color, comp)
    requires cell in region && region <= region' && region <= comp
    requires forall p :: p in region' - region ==> Matches(grid, color, p) && Adjacent(cell, p)
    ensures region' <= comp
  {
    assert ClosedAt(grid, color, comp, cell);
    forall p | p in region' - region
      ensures p in comp
    {
      assert Absorbs(grid, color, comp, p);
    }
  }

  /**
   * The worklist invariant: every queued cell is in the region, and every
   * region cell not waiting in the queue has all its matching neighbours in
   * the region.
   */
  predicate WorklistInv(grid: Board, color: Color, region: set<Cell>, queue: seq<Cell>)
  {
    && (forall i :: 0 <= i < |queue| ==> queue[i] in region)
    && (forall p {:trigger ClosedAt(grid, color, region, p)} :: p in region ==> p in queue || ClosedAt(grid, color, region, p))
  }

  /** Popping a cell and visiting its neighbours keeps the worklist invariant. */
  lemma PopVisitKeeps(grid: Board, color: Color, region0: set<Cell>, queue0: seq<Cell>,
                      region: set<Cell>, queue: seq<Cell>)
    requires WorklistInv(grid, color, region0, queue0) && |queue0| > 0
    requires region0 <= region
    requires |queue0| - 1 <= |queue| && queue[..|queue0| - 1] == queue0[..|queue0| - 1]
    requires forall i :: |queue0| - 1 <= i < |queue| ==> queue[i] in region
    requires forall p :: p in region - region0 ==> p in queue
    requires ClosedAt(grid, color, region, queue0[|queue0| - 1])
    ensures WorklistInv(grid, color, region, queue)
  {
    var cell := queue0[|queue0| - 1];
    var kept := |queue0| - 1;
    forall i | 0 <= i < |queue|
      ensures queue[i] in region
    {
      if i < kept {
        assert queue[i] == queue[..kept][i] == queue0[i];
      }
    }
    forall p | p in region
      ensures p in queue || ClosedAt(grid, color, region, p)
    {
      if p in region0 && p != cell {
        if p in queue0 {
          assert queue0 == queue0[..kept] + [cell];
          assert p in queue[..kept];
        } else {
          assert ClosedAt(grid, color, region0, p);
        }
      }
    }
  }

  /** A region grows by exactly the cells that are new in it. */
  lemma GrowthCount(region0: set<Cell>, region: set<Cell>)
    requires region0 <= region
    ensures |region| == |region0| + |region - region0|
  {
    assert region == region0 + (region - region0);
  }

  /** Adding cells of the board leaves fewer cells outside the region. */
  lemma GrowthShrinksRest(all: set<Cell>, region0: set<Cell>, region: set<Cell>)
    requires region0 <= region <= all
    ensures region == region0 || all - region < all - region0
  {
    if region - region0 == {} {
      forall p | p in region
        ensures p in region0
      {
        assert p !in region - region0;
      }
    } else {
      var q :| q in region - region0;
      assert q in all - region0 && q !in all - region;
    }
  }

  /**
   * The worklist loop of handleColor: starting from the seed (the old,
   * recoloured region), pop a cell and visit its neighbours until the
   * worklist is empty. The seed only grows, and at the end the region is the
   * corner's component in colour `color`. Each cell joins the region, and so
   * is pushed, at most once, which bounds the loop by the number of cells.
   */
  method GrowRegion(grid: Board, seed: set<Cell>, color: Color) returns (region: set<Cell>, ghost pushed: nat)
    requires IsSquare(grid)
    requires (0, 0) in seed && seed <= Component(grid, color, (0, 0))
    ensures seed <= region
    ensures region == Component(grid, color, (0, 0))
    ensures pushed == |region| <= |grid| * |grid|
  {
    ghost var all := AllCells(|grid|);
    ghost var comp := Component(grid, color, (0, 0));
    ComponentInBounds(grid, color, (0, 0));
    ComponentClosed(grid, color, (0, 0));
    region := seed;
    var queue := Elements(seed);
    pushed := |queue|;
    while |queue| > 0
      invariant seed <= region <= comp
      invariant WorklistInv(grid, color, region, queue)
      invariant pushed == |region|
      decreases all - region, |queue|
    {
      ghost var region0, queue0 := region, queue;
      var cell := queue[|queue| - 1];
      queue := queue[..|queue| - 1];
      ghost var kept := |queue|;
      region, queue := VisitNeighbours(grid, color, cell, region, queue);
      pushed := pushed + (|queue| - kept);
      AbsorbNeighbours(grid, color, cell, region0, region, comp);
      PopVisitKeeps(grid, color, region0, queue0, region, queue);
      GrowthShrinksRest(all, region0, region);
      GrowthCount(region0, region);
    }
    ComponentExact(grid, color, (0, 0), region);
    AllCellsSize(|grid|);
    SubsetSize(region, all);
  }
}
