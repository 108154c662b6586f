/** The search engine's view of a position: cell identifiers, the flat board,
    the `(player, board)` state tuple, move coordinates, the cell-level
    opponent and the translation from the UI's piece labels. */
module GameState {
  import opened Settings

  /** The three cell identifiers: `BOARD_ID` (empty), `WHITE_ID`, `BLACK_ID`. */
  datatype Cell = Empty | White | Black

  /** A row-major board; a well-formed one has exactly 64 cells. */
  type Board = seq<Cell>

  predicate ValidBoard(b: Board) {
    |b| == WIDTH * HEIGHT
  }

  /** The `(current_player, state)` tuple. Boards are values here: a new state
      never shares storage with the one it came from. */
  datatype State = State(player: Cell, board: Board)

  /** An `(x, y)` move coordinate. */
  datatype Action = Action(x: int, y: int)

  predicate OnGrid(a: Action) {
    0 <= a.x < WIDTH && 0 <= a.y < HEIGHT
  }

  function Index(a: Action): int {
    a.x + a.y * WIDTH
  }

  /** The coordinate of an on-board tile, as `(tile % WIDTH, tile / HEIGHT)`. */
  function ActionAt(tile: int): Action {
    Action(tile % WIDTH, tile / HEIGHT)
  }

  lemma IndexRoundTrip(a: Action)
    requires OnGrid(a)
    ensures OnBoard(Index(a)) && ActionAt(Index(a)) == a
  {
    var t := Index(a);
    assert t == WIDTH * a.y + a.x;
  }

  lemma ActionAtRoundTrip(tile: int)
    requires OnBoard(tile)
    ensures OnGrid(ActionAt(tile)) && Index(ActionAt(tile)) == tile
  {
  }

  /** BLACK for WHITE and WHITE for anything else (including an empty cell). */
  function Opponent(player: Cell): (r: Cell)
    ensures r != Empty && r != player
  {
    if player == White then Black else White
  }

  lemma OpponentInvolution(player: Cell)
    requires player != Empty
    ensures Opponent(Opponent(player)) == player
  {
  }

  /** Number of cells of `b` holding `who`. */
  function Count(b: seq<Cell>, who: Cell): (n: nat)
    ensures n <= |b|
  {
    if |b| == 0 then 0 else (if b[0] == who then 1 else 0) + Count(b[1..], who)
  }

  /** The engine's first player: WHITE_ID when the UI says WHITE, else BLACK_ID. */
  function FirstPlayer(first: Label): (c: Cell)
    ensures c != Empty
    ensures c == White <==> first == WhiteLabel
  {
    if first == WhiteLabel then White else Black
  }

  /** The engine's cell for one UI label. */
  function CellOf(l: Label): (c: Cell)
    ensures l == WhiteLabel || l == BlackLabel ==> c == FirstPlayer(l)
    ensures c == Empty <==> l == BoardLabel || l == MoveLabel
  {
    match l
    case BoardLabel => Empty
    case MoveLabel => Empty
    case WhiteLabel => White
    case BlackLabel => Black
  }

  /** Translates the UI's pieces into a state; a "legal move" marker is just
      an empty cell to the engine. */
  function MakeState(first: Label, pieces: seq<Label>): (s: State)
    ensures s.player == FirstPlayer(first)
    ensures |s.board| == |pieces|
    ensures forall i :: 0 <= i < |pieces| ==>
              && (s.board[i] == Empty <==> pieces[i] in {BoardLabel, MoveLabel})
              && (s.board[i] == White <==> pieces[i] == WhiteLabel)
              && (s.board[i] == Black <==> pieces[i] == BlackLabel)
  {
    State(FirstPlayer(first), seq(|pieces|, i requires 0 <= i < |pieces| => CellOf(pieces[i])))
  }

  /** Clearing a move marker does not change the engine's state. */
  lemma MakeStateIgnoresMoveMarkers(first: Label, pieces: seq<Label>, i: int)
    requires 0 <= i < |pieces| && pieces[i] == MoveLabel
    ensures MakeState(first, pieces[i := BoardLabel]) == MakeState(first, pieces)
  {
    var s, s' := MakeState(first, pieces), MakeState(first, pieces[i := BoardLabel]);
    assert forall j :: 0 <= j < |pieces| ==> s'.board[j] == s.board[j];
  }
}
