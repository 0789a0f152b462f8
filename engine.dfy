/**
 * The game engine of the flood-fill mini app: the difficulty table, the
 * palette, the state a game keeps (board, filled region, selected colour,
 * move counter, move limit, game state), and the two transitions that change
 * it, starting a game and choosing a colour.
 *
 * The transitions are specified by ghost functions on a snapshot of the
 * state (Start, Move); the class FloodFill holds the state in mutable fields
 * and its methods are proved to perform exactly those transitions.
 */
module Engine {
  import opened Grid
  import opened Fill

  /** COLORS: the six colours a board is drawn from and a player may pick. */
  const Palette: seq<Color> := ["#FF6B6B", "#4ECDC4", "#FFE66D", "#95E1D3", "#C7CEEA", "#FFDAB9"]

  /** The three difficulties, "Легкая", "Средняя" and "Сложная". */
  datatype Difficulty = Easy | Medium | Hard

  datatype Config = Config(size: nat, moves: nat)

  /** DIFFICULTY: board size and move limit per difficulty. */
  function Settings(d: Difficulty): Config
  {
    match d
    case Easy => Config(10, 30)
    case Medium => Config(14, 35)
    case Hard => Config(18, 40)
  }

  /** `gameState`; Unset is its initial `null`. */
  datatype GameState = Unset | Playing | Won | Lost

  /** The engine's state fields, as one value. */
  datatype Snapshot = Snapshot(
    field: Board,
    filled: set<Cell>,
    selectedColor: Option<Color>,
    moves: int,
    maxMoves: int,
    gameState: GameState)

  /** The state before any game: the initial `useState` values. */
  const Initial: Snapshot := Snapshot([], {}, None, 0, 25, Unset)

  /**
   * The region invariant: the board is square and, once there is a board,
   * the filled region is exactly the 4-connected component of the top-left
   * corner among the cells of the corner's colour, which is the selected colour.
   */
  ghost predicate Consistent(s: Snapshot)
  {
    && IsSquare(s.field)
    && (|s.field| > 0 ==>
          && s.filled == Component(s.field, s.field[0][0], (0, 0))
          && s.selectedColor == Some(s.field[0][0]))
  }

  /** The move budget: a running game has moves left; no game ever overspends. */
  predicate WithinBudget(s: Snapshot)
  {
    && (s.gameState != Unset ==> 0 <= s.moves <= s.maxMoves)
    && (s.gameState == Playing ==> s.moves < s.maxMoves)
  }

  /** Every cell of the board comes from the palette. */
  predicate PaletteBoard(g: Board)
  {
    forall i, j :: 0 <= i < |g| && 0 <= j < |g[i]| ==> g[i][j] in Palette
  }

  /** A board as the generator draws it: size x size, every cell from the palette. */
  predicate GeneratedBoard(board: Board, size: nat)
  {
    && |board| == size
    && IsSquare(board)
    && PaletteBoard(board)
  }

  /** startGame: with no room selected nothing happens; otherwise a fresh game on `board`. */
  ghost function Start(s: Snapshot, room: Option<Difficulty>, board: Board): Snapshot
    requires room.Some? ==> GeneratedBoard(board, Settings(room.value).size)
  {
    match room
    case None => s
    case Some(d) =>
      Snapshot(board, Component(board, board[0][0], (0, 0)), Some(board[0][0]), 0, Settings(d).moves, Playing)
  }

  /** handleColor accepts a colour only in a running game and only if it differs from the corner's. */
  predicate Accepted(s: Snapshot, c: Color)
    requires IsSquare(s.field)
  {
    s.gameState == Playing && |s.field| > 0 && s.field[0][0] != c
  }

  /**
   * handleColor: an accepted colour repaints the filled region, the region
   * becomes the corner's component in the new colour, the move is counted,
   * and the game is won when the region covers the board, else lost when the
   * move limit is reached. Any other colour leaves the state as it is.
   */
  ghost function Move(s: Snapshot, c: Color): (r: Snapshot)
    requires IsSquare(s.field)
    ensures IsSquare(r.field) && |r.field| == |s.field|
  {
    if !Accepted(s, c) then s
    else
      var f := Recolored(s.field, s.filled, c);
      var region := Component(f, c, (0, 0));
      var m := s.moves + 1;
      s.(field := f, filled := region, selectedColor := Some(c), moves := m,
         gameState := if |region| == |f| * |f| then Won else if m >= s.maxMoves then Lost else Playing)
  }

  /** The state after a sequence of colour choices. */
  ghost function Run(s: Snapshot, colors: seq<Color>): (r: Snapshot)
    requires IsSquare(s.field)
    ensures IsSquare(r.field) && |r.field| == |s.field|
    decreases |colors|
  {
    if colors == [] then s else Run(Move(s, colors[0]), colors[1..])
  }

  // ---------------------------------------------------------------------
  // Properties of one move

  /** The corner belongs to the region and carries the region's colour. */
  lemma CornerInRegion(s: Snapshot)
    requires Consistent(s) && |s.field| > 0
    ensures (0, 0) in s.filled
  {
    ComponentOrigin(s.field, s.field[0][0], (0, 0));
  }

  /** A new game satisfies the region invariant and the move budget. */
  lemma StartConsistent(s: Snapshot, room: Option<Difficulty>, board: Board)
    requires room.None? ==> Consistent(s) && WithinBudget(s)
    requires room.Some? ==> GeneratedBoard(board, Settings(room.value).size)
    ensures Consistent(Start(s, room, board)) && WithinBudget(Start(s, room, board))
    ensures room.Some? ==> (0, 0) in Start(s, room, board).filled
  {
    if room.Some? {
      ComponentOrigin(board, board[0][0], (0, 0));
    }
  }

  /** What an accepted move does to the board and the region. */
  lemma AcceptedMove(s: Snapshot, c: Color)
    requires Consistent(s) && Accepted(s, c)
    ensures var r := Move(s, c);
      && (forall p :: p in s.filled ==> r.field[p.0][p.1] == c)
      && (forall i, j :: 0 <= i < |s.field| && 0 <= j < |s.field| && (i, j) !in s.filled ==>
            r.field[i][j] == s.field[i][j])
      && s.filled <= r.filled
      && (forall p :: p in r.filled ==> Matches(r.field, c, p))
      && Closed(r.field, c, r.filled)
      && r.moves == s.moves + 1
      && r.selectedColor == Some(c)
      && r.maxMoves == s.maxMoves
  {
    var t := s.field[0][0];
    var r := Move(s, c);
    forall p | p in s.filled
      ensures r.field[p.0][p.1] == c
    {
      ComponentMatches(s.field, t, (0, 0), p);
      RecoloredAt(s.field, s.filled, c, p);
    }
    forall i, j | 0 <= i < |s.field| && 0 <= j < |s.field| && (i, j) !in s.filled
      ensures r.field[i][j] == s.field[i][j]
    {
      RecoloredAt(s.field, s.filled, c, (i, j));
    }
    RecolorKeepsComponent(s.field, t, (0, 0), c);
    forall p | p in r.filled
      ensures Matches(r.field, c, p)
    {
      ComponentMatches(r.field, c, (0, 0), p);
    }
    ComponentClosed(r.field, c, (0, 0));
  }

  /** A move keeps the region invariant. */
  lemma MoveConsistent(s: Snapshot, c: Color)
    requires Consistent(s)
    ensures Consistent(Move(s, c))
  {
    if Accepted(s, c) {
      CornerInRegion(s);
      AcceptedMove(s, c);
    }
  }

  /** A move keeps the move budget. */
  lemma MoveWithinBudget(s: Snapshot, c: Color)
    requires IsSquare(s.field) && WithinBudget(s)
    ensures WithinBudget(Move(s, c))
  {
  }

  /**
   * The outcome of an accepted move: won exactly when the whole board is now
   * of the chosen colour, which is tested before the move limit; lost exactly
   * when it is not and the move limit has been reached; otherwise the game goes on.
   */
  lemma MoveOutcome(s: Snapshot, c: Color)
    requires Consistent(s) && Accepted(s, c)
    ensures var r := Move(s, c);
      && (r.gameState == Won <==> Monochrome(r.field, c))
      && (r.gameState == Lost <==> !Monochrome(r.field, c) && s.moves + 1 >= s.maxMoves)
      && (r.gameState == Playing <==> !Monochrome(r.field, c) && s.moves + 1 < s.maxMoves)
  {
    var r := Move(s, c);
    var n := |r.field|;
    ComponentInBounds(r.field, c, (0, 0));
    FullIsAll(n, r.filled);
    if Monochrome(r.field, c) {
      forall p | p in AllCells(n)
        ensures p in r.filled
      {
        InAllCells(n, p);
        UniformReachable(r.field, c, p);
        InComponent(r.field, c, (0, 0), p);
      }
    }
    if r.filled == AllCells(n) {
      forall i, j | 0 <= i < n && 0 <= j < n
        ensures r.field[i][j] == c
      {
        InAllCells(n, (i, j));
        ComponentMatches(r.field, c, (0, 0), (i, j));
      }
    }
  }

  /** An accepted move paints with a palette colour, so the board stays in the palette. */
  lemma MoveKeepsPalette(s: Snapshot, c: Color)
    requires IsSquare(s.field) && PaletteBoard(s.field) && c in Palette
    ensures PaletteBoard(Move(s, c).field)
  {
    if Accepted(s, c) {
      forall i, j | 0 <= i < |s.field| && 0 <= j < |s.field|
        ensures Move(s, c).field[i][j] in Palette
      {
        RecoloredAt(s.field, s.filled, c, (i, j));
      }
    }
  }

  // ---------------------------------------------------------------------
  // Properties of a whole game

  /** A finished game ignores every further colour choice. */
  lemma {:induction false} RunFromFinished(s: Snapshot, colors: seq<Color>)
    requires IsSquare(s.field) && (s.gameState == Won || s.gameState == Lost)
    ensures Run(s, colors) == s
    decreases |colors|
  {
    if colors != [] {
      RunFromFinished(Move(s, colors[0]), colors[1..]);
    }
  }

  /** Choosing the corner's own colour, any number of times, changes nothing. */
  lemma {:induction false} RunSameColor(s: Snapshot, c: Color, n: nat)
    requires IsSquare(s.field) && |s.field| > 0 && s.field[0][0] == c
    ensures Run(s, seq(n, _ => c)) == s
    decreases n
  {
    if n > 0 {
      assert seq(n, _ => c)[1..] == seq(n - 1, _ => c);
      RunSameColor(s, c, n - 1);
    }
  }

  /**
   * Over any sequence of choices the region invariant and the move budget
   * hold, the region never shrinks, and the move counter rises by at most one
   * per choice.
   */
  lemma {:induction false} RunInvariant(s: Snapshot, colors: seq<Color>)
    requires Consistent(s) && WithinBudget(s)
    ensures var r := Run(s, colors);
      && Consistent(r) && WithinBudget(r)
      && s.filled <= r.filled
      && s.moves <= r.moves <= s.moves + |colors|
      && r.maxMoves == s.maxMoves
    decreases |colors|
  {
    if colors != [] {
      var c := colors[0];
      MoveConsistent(s, c);
      MoveWithinBudget(s, c);
      if Accepted(s, c) {
        AcceptedMove(s, c);
      }
      RunInvariant(Move(s, c), colors[1..]);
    }
  }

  /** Palette colours keep the board inside the palette over a whole game. */
  lemma {:induction false} RunKeepsPalette(s: Snapshot, colors: seq<Color>)
    requires IsSquare(s.field) && PaletteBoard(s.field)
    requires forall i :: 0 <= i < |colors| ==> colors[i] in Palette
    ensures PaletteBoard(Run(s, colors).field)
    decreases |colors|
  {
    if colors != [] {
      MoveKeepsPalette(s, colors[0]);
      RunKeepsPalette(Move(s, colors[0]), colors[1..]);
    }
  }

  /**
   * After startGame and any sequence of colour choices, the filled region is
   * exactly the 4-connected component of the corner among the cells of the
   * corner's colour, the board keeps the table's size, the move limit is the
   * table's, and the move counter never exceeds the limit.
   */
  lemma StartThenPlay(s: Snapshot, d: Difficulty, board: Board, colors: seq<Color>)
    requires GeneratedBoard(board, Settings(d).size)
    ensures var r := Run(Start(s, Some(d), board), colors);
      && |r.field| == Settings(d).size
      && r.filled == Component(r.field, r.field[0][0], (0, 0))
      && r.selectedColor == Some(r.field[0][0])
      && r.maxMoves == Settings(d).moves
      && 0 <= r.moves <= r.maxMoves
      && (r.gameState == Playing ==> r.moves < r.maxMoves)
  {
    var s0 := Start(s, Some(d), board);
    StartConsistent(s, Some(d), board);
    RunInvariant(s0, colors);
    assert s0.gameState == Playing;
    RunStaysStarted(s0, colors);
  }

  /**
   * A board drawn in a single colour is won by the first accepted move: the
   * starting region already covers the board, so repainting it fills the board.
   */
  lemma UniformBoardWinsAtOnce(s: Snapshot, d: Difficulty, board: Board, c: Color)
    requires GeneratedBoard(board, Settings(d).size) && Monochrome(board, board[0][0])
    requires c != board[0][0]
    ensures Move(Start(s, Some(d), board), c).gameState == Won
    ensures Move(Start(s, Some(d), board), c).moves == 1
  {
    var s0 := Start(s, Some(d), board);
    var t := board[0][0];
    var n := |board|;
    StartConsistent(s, Some(d), board);
    forall i, j | 0 <= i < n && 0 <= j < n
      ensures (i, j) in s0.filled
    {
      UniformReachable(board, t, (i, j));
      InComponent(board, t, (0, 0), (i, j));
    }
    var f := Move(s0, c).field;
    forall i, j | 0 <= i < n && 0 <= j < |f[i]|
      ensures f[i][j] == c
    {
      RecoloredAt(board, s0.filled, c, (i, j));
    }
    MoveOutcome(s0, c);
  }

  /** A started game never returns to the unset state. */
  lemma {:induction false} RunStaysStarted(s: Snapshot, colors: seq<Color>)
    requires IsSquare(s.field) && s.gameState != Unset
    ensures Run(s, colors).gameState != Unset
    decreases |colors|
  {
    if colors != [] {
      RunStaysStarted(Move(s, colors[0]), colors[1..]);
    }
  }

  // ---------------------------------------------------------------------
  // The engine's state, updated in place

  /**
   * The `forEach` of handleColor that writes the new colour into every cell
   * of the filled region, one cell at a time, in the copy of the board.
   */
  method PaintRegion(board: Board, region: set<Cell>, color: Color) returns (painted: Board)
    requires forall p :: p in region ==> OnBoard(board, p)
    ensures painted == Recolored(board, region, color)
  {
    painted := board;
    RecoloredEmpty(board, color);
    var rest := region;
    assert region - rest == {};
    while rest != {}
      invariant rest <= region
      invariant painted == Recolored(board, region - rest, color)
      decreases rest
    {
      var p :| p in rest;
      RecolorOneMore(board, region - rest, color, p);
      painted := painted[p.0 := painted[p.0][p.1 := color]];
      assert region - (rest - {p}) == (region - rest) + {p};
      rest := rest - {p};
    }
    assert region - rest == region;
  }

  /**
   * The body of an accepted handleColor move on the copied board: paint the
   * filled region in the new colour, then grow it with the worklist. The
   * board that results is the old one with exactly the region repainted, and
   * the region that results is the corner's component in the new colour,
   * containing the old region.
   */
  method Repaint(board: Board, region: set<Cell>, newColor: Color) returns (newField: Board, newFilled: set<Cell>)
    requires IsSquare(board) && |board| > 0
    requires region == Component(board, board[0][0], (0, 0))
    ensures newField == Recolored(board, region, newColor)
    ensures newFilled == Component(newField, newColor, (0, 0))
    ensures region <= newFilled
  {
    var oldColor := board[0][0];
    ComponentOrigin(board, oldColor, (0, 0));
    RecolorKeepsComponent(board, oldColor, (0, 0), newColor);
    forall p | p in region
      ensures OnBoard(board, p)
    {
      ComponentMatches(board, oldColor, (0, 0), p);
    }
    newField := PaintRegion(board, region, newColor);
    ghost var pushed;
    newFilled, pushed := GrowRegion(newField, region, newColor);
  }

  /** An accepted move, spelled out field by field. */
  lemma MoveAccepted(s: Snapshot, c: Color, f: Board, R: set<Cell>)
    requires IsSquare(s.field) && Accepted(s, c)
    requires f == Recolored(s.field, s.filled, c) && R == Component(f, c, (0, 0))
    ensures Move(s, c) == Snapshot(f, R, Some(c), s.moves + 1, s.maxMoves,
      if |R| == |f| * |f| then Won else if s.moves + 1 >= s.maxMoves then Lost else Playing)
  {
  }

  /** The state fields of the game component and the two handlers that update them. */
  class FloodFill {
    var field: Board
    var filledCells: set<Cell>
    var selectedColor: Option<Color>
    var gameState: GameState
    var moves: int
    var maxMoves: int

    ghost function State(): Snapshot
      reads this
    {
      Snapshot(field, filledCells, selectedColor, moves, maxMoves, gameState)
    }

    ghost predicate Valid()
      reads this
    {
      Consistent(State()) && WithinBudget(State())
    }

    constructor ()
      ensures Valid() && State() == Initial
    {
      field := [];
      filledCells := {};
      selectedColor := None;
      gameState := Unset;
      moves := 0;
      maxMoves := 25;
    }

    /** startGame, with the randomly drawn board passed in. */
    method StartGame(room: Option<Difficulty>, board: Board)
      requires Valid()
      requires room.Some? ==> GeneratedBoard(board, Settings(room.value).size)
      modifies this
      ensures Valid() && State() == Start(old(State()), room, board)
    {
      if room.None? {
        return;
      }
      var cfg := Settings(room.value);
      var startColor := board[0][0];
      var initialFill := FillFrom(board, 0, 0, startColor);
      StartConsistent(State(), room, board);

      field := board;
      filledCells := initialFill.value;
      selectedColor := Some(startColor);
      moves := 0;
      maxMoves := cfg.moves;
      gameState := Playing;
    }

    /** handleColor: one colour choice. */
    method HandleColor(newColor: Color)
      requires Valid()
      modifies this
      ensures Valid() && State() == Move(old(State()), newColor)
    {
      if gameState != Playing || |field| == 0 {
        return;
      }
      var newField := field;
      var oldColor := newField[0][0];
      if oldColor == newColor {
        return;
      }

      var newFilled;
      newField, newFilled := Repaint(newField, filledCells, newColor);
      MoveAccepted(State(), newColor, newField, newFilled);
      MoveConsistent(State(), newColor);
      MoveWithinBudget(State(), newColor);

      field := newField;
      filledCells := newFilled;
      selectedColor := Some(newColor);

      var m := moves + 1;
      moves := m;

      // The game is won when the region covers the board; only then is the
      // move limit consulted.
      var total := |newField| * |newField|;
      if |newFilled| == total {
        gameState := Won;
        return;
      }
      if m >= maxMoves {
        gameState := Lost;
        return;
      }
    }
  }
}
