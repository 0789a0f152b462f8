# Flood-fill engine

This project models the game engine of the flood-fill mini app in
`src/App.jsx`.

The player owns a region that grows from the top-left corner of a square
board. Choosing a colour repaints the region in that colour, and the region
then absorbs every 4-connected cell of that colour. The game is won when the
region covers the board. It is lost when the move limit is reached first.

The model has three modules:

- `Grid` (grid.dfy): boards, cells and 4-neighbour steps. It defines paths
  over cells of one colour and the 4-connected component of a cell
  (`Component`). It also defines closed regions: a region is closed when no
  matching neighbour of one of its cells lies outside it. `Recolored` is the
  board with a region repainted. Lemmas relate these definitions. The main
  one: a closed region that contains the seed and lies inside its component
  *is* the component.
- `Fill` (fill.dfy): the two flood fills.
  - `fillCells` is the recursive fill that threads a mutable `visited` set.
  - The worklist loop of `handleColor` pushes and pops cells on `queue` and
    adds them to `newFilled`.

  Both are proved to compute exactly the component of the corner.
- `Engine` (engine.dfy): the game itself.
  - The palette (`COLORS`) and the difficulty table (`DIFFICULTY`, the
    function `Settings`: 10 x 10 with 30 moves, 14 x 14 with 35, 18 x 18
    with 40). The table has no contract of its own; the `StartGame`,
    `StartThenPlay` and `UniformBoardWinsAtOnce` rows state what it decides.
  - The state held in the `useState` fields `field`, `filledCells`,
    `selectedColor`, `moves`, `maxMoves` and `gameState`, as the class
    `FloodFill`.
  - `startGame` and `handleColor`, as methods of that class.

  Each method is proved to perform a transition given by a ghost function
  on a snapshot of the state (`Start`, `Move`). The properties of a game are
  lemmas about those functions. Over any sequence of moves:
  - the region is always exactly the corner's component;
  - the region never shrinks;
  - the move counter never passes the limit;
  - finished games ignore further input.

## Model

| member | source | states |
|---|---|---|
| Fill.FillCells | src/App.jsx:29-42 | Given the visited set, what it adds is connected to (row, col) through cells of colour `target`, and every added cell has all its matching neighbours in the result. The seed is in the result whenever it is on the board and of colour `target`. Nothing visited is dropped. |
| Fill.FillFrom | src/App.jsx:29-42 | `fillCells(grid, row, col, target)` with an empty visited set returns a set exactly when the seed is on the board and of colour `target`; otherwise it returns `undefined`, here None. That set is exactly the seed's 4-connected component: no cell off the board, none of another colour, none unreachable. |
| Fill.Elements | src/App.jsx:78 | `[...filledCells]` lists exactly the cells of the set, each once: the list is as long as the set. |
| Fill.VisitNeighbour | src/App.jsx:84-96 | One neighbour: if it is on the board, not in the region and of the new colour, it joins the region and is pushed at the end of the worklist. No other cell joins, and the worklist so far stays in place as a prefix. Either way, afterwards the neighbour is in the region if it may be entered. Over the whole pass, the worklist grows by exactly as many entries as the region grows by cells, and every new entry is a newly added cell. |
| Fill.VisitNeighbours | src/App.jsx:83-97 | One pass over the four neighbour offsets. Only on-board cells of the new colour that are adjacent to the popped cell are added. Every added cell is pushed at the end of the worklist, and what was already queued stays in place. Every new worklist entry is a newly added cell, and the worklist grows by exactly the number of added cells, so nothing else is pushed and no cell is pushed twice. Afterwards every matching neighbour of the popped cell is in the region. Nothing is pushed when nothing is added. |
| Fill.PopVisitKeeps | src/App.jsx:80-98 | The worklist invariant: every queued cell is in the region, and every region cell off the worklist has all its matching neighbours in the region. Popping a cell and visiting its neighbours keeps this invariant. |
| Fill.GrowRegion | src/App.jsx:77-98 | Started from the old region, the worklist loop ends with a superset of it that is exactly the corner's component in the new colour. The number of pushes, counting the initial spread of the region, equals the size of the final region, so each cell is pushed at most once and there are at most N*N pushes. The loop terminates because each pass either adds a cell of the board or shortens the worklist. |
| Fill.AbsorbNeighbours | src/App.jsx:88-95 | A cell is only ever added when it is a matching neighbour of a region cell, so the region stays inside the component. |
| Engine.PaintRegion | src/App.jsx:72-75 | Writing the new colour into each cell of the region, one cell at a time and in any order, yields the board with exactly the region repainted. |
| Engine.Repaint | src/App.jsx:67-98 | Starts from the copy of the board. The new board is the old one with exactly the filled region repainted. The new region is the corner's component in the new colour and contains the old region. |
| Engine.FloodFill.constructor | src/App.jsx:5-12 | The initial state: empty board and region, no colour, 0 moves, limit 25, no game state. It satisfies the region invariant and the move budget. |
| Engine.FloodFill.StartGame | src/App.jsx:44-62 | With no room selected nothing changes. Otherwise the state is a new game on the given size x size palette board. The region is `fillCells` from the corner, the selected colour is the corner's, there are 0 moves, the limit comes from the difficulty table (src/App.jsx:16-20) and the game is playing. The region invariant and the move budget are kept. |
| Engine.FloodFill.HandleColor | src/App.jsx:64-119 | The new state is exactly `Move` of the old state, and the region invariant and move budget are kept. With no running game, an empty board or the corner's own colour, no field changes. |
| Engine.StartConsistent | src/App.jsx:44-61 | A new game's region is the corner's component and contains the corner. Its selected colour is the corner's, and the move counter is within the limit. |
| Engine.CornerInRegion | src/App.jsx:54 | In a consistent state with a board, the corner belongs to the region. |
| Engine.AcceptedMove | src/App.jsx:67-98 | After an accepted move, every cell of the old region holds the new colour and every other cell keeps its colour. The new region contains the old one. Each of its cells has the new colour, and it is closed under matching neighbour steps. The counter rises by exactly 1, the selected colour is the new one, and the limit is unchanged. |
| Engine.MoveConsistent | src/App.jsx:64-119 | Any move, accepted or not, keeps the region exactly the corner's component in the corner's colour, and keeps the selected colour equal to the corner's. |
| Engine.MoveWithinBudget | src/App.jsx:104-118 | Any move keeps the counter within the limit, and keeps it strictly below the limit while the game is playing. |
| Engine.MoveOutcome | src/App.jsx:104-118 | After an accepted move the game is won exactly when the whole board has the chosen colour; the win is tested before the limit, so filling the board on the last allowed move wins. The game is lost exactly when the board is not monochrome and `moves + 1 >= maxMoves`. Otherwise it is still playing. |
| Engine.MoveKeepsPalette | src/App.jsx:14 | Choosing a palette colour keeps every cell of the board in the palette. |
| Engine.RunFromFinished | src/App.jsx:65 | Once a game is won or lost, any further sequence of choices leaves the whole state unchanged. |
| Engine.RunSameColor | src/App.jsx:68-70 | Choosing the corner's colour, any number of times, changes nothing: no move is consumed and the board and region are untouched. |
| Engine.RunInvariant | src/App.jsx:64-119 | Over any sequence of choices, the region stays exactly the corner's component and never shrinks. The counter stays within the limit and rises by at most one per choice. The limit is fixed. |
| Engine.RunKeepsPalette | src/App.jsx:49-51 | Palette choices keep a palette board in the palette for a whole game. |
| Engine.RunStaysStarted | src/App.jsx:61 | A started game never returns to the unset state. |
| Engine.StartThenPlay | src/App.jsx:44-119 | After `startGame` and any sequence of choices, the region is exactly the 4-connected component of (0,0) among the cells equal to `field[0][0]`. The board keeps the table's size and the limit is the table's. The counter never exceeds the limit, and is below it while the game is playing. |
| Engine.UniformBoardWinsAtOnce | src/App.jsx:107-112 | On a board drawn in one colour, the first accepted move wins, with 1 move counted. |
| Grid.Recolored | src/App.jsx:67-75 | The repainted board has the shape of the original. |
| Grid.RecoloredAt | src/App.jsx:72-75 | A cell of the repainted board has the new colour if it is in the region, and its old colour otherwise. |
| Grid.ComponentMatches | src/App.jsx:30-32 | Every cell of a component is on the board and has the fill colour. |
| Grid.ComponentInBounds | src/App.jsx:30 | A component lies within the board. |
| Grid.ComponentOrigin | src/App.jsx:30-34 | The seed is in its own component exactly when it is on the board and of the fill colour. |
| Grid.ComponentClosed | src/App.jsx:36-39 | A component holds every matching 4-neighbour of each of its cells. |
| Grid.ComponentStep | src/App.jsx:36-39 | Stepping from a matching cell to a neighbour can only shrink the component. |
| Grid.ClosedContainsComponent | src/App.jsx:80-98 | A closed set that contains the seed contains the seed's whole component. |
| Grid.ComponentExact | src/App.jsx:29-42 | A closed set that contains the seed and lies in its component is that component. |
| Grid.RecolorKeepsComponent | src/App.jsx:72-98 | After the component is repainted, it lies inside the corner's component in the new colour. |
| Grid.UniformReachable | src/App.jsx:107-110 | On a board of one colour, every cell is reachable from the corner. |
| Grid.AllCellsSize | src/App.jsx:107 | An N x N board has N*N cells. |
| Grid.FullIsAll | src/App.jsx:107-110 | A set of board cells has N*N elements exactly when it is the whole board, so `percent === 1` means the region covers the board. |

## Left out

- Random board generation (src/App.jsx:49-51): the board is a parameter of `StartGame`. It is required to have the table's size and only palette colours.
- The selected room: it is an optional difficulty. Room names, locks and the twelve-room list (src/App.jsx:22-27) are not modelled, and the Russian difficulty keys are the datatype `Difficulty`. An unknown key cannot occur, because every room's difficulty is one of the three keys.
- `percent === 1` (src/App.jsx:108-110): this float comparison is modelled as the integer equality `|newFilled| == N * N`. `filledPercent` and its display are not modelled.
- Boards and keys: the board is an immutable sequence value. The copy `field.map(row => [...row])` and the in-place writes into it are writes to a local sequence, so aliasing between the copy and `field` cannot arise in the model and is not proved absent. Cell keys `"r-c"` are coordinate pairs, so the string round trip through `split("-")` is not modelled.
- Iteration order: the order in which `forEach` over a `Set` and `[...filledCells]` visit cells is not modelled. `PaintRegion` and `Elements` pick the cells in an arbitrary order, and their contracts hold for every order.
- Fill.FillCells: the recursion runs on unbounded integers and has no call-stack limit. JavaScript's stack overflow on large regions is not modelled.
- React's state updates: they are applied at once, in program order. Batching and re-rendering are not modelled.
- Square boards: every operation requires the board to be square, because both bounds checks compare the column against the row count (src/App.jsx:30, src/App.jsx:89-90).
- The move limit follows the code: 30, 35 and 40 moves by difficulty (src/App.jsx:17-19).
- Scoring: it is absent from `src/App.jsx`; the balance arithmetic of the server handlers is not modelled.
- The rest of the repository: the server handlers `api/bot.js` and `api/game-result.js`, rendering and navigation (src/App.jsx:121 onward), and the `setTimeout(startGame, 50)` scheduling. None of this is part of this model.
