/** The static evaluation of a position for one side: the sign of the piece
    difference, a corner term, and an edge term. As the source writes them,
    only the top-left corner counts against the side when the opponent holds
    it (the other three opponent corners count for it), and the edge term is
    always zero because its filter compares the whole board with a player id. */
module Evaluation {
  import opened Settings
  import opened GameState

  /** `count_eval`: +1, 0 or -1 as `player` has more, as many or fewer pieces
      than `opponent`. */
  function CountEval(b: Board, player: Cell, opponent: Cell): (r: int)
    ensures r == 1 <==> Count(b, player) > Count(b, opponent)
    ensures r == 0 <==> Count(b, player) == Count(b, opponent)
    ensures r == -1 <==> Count(b, player) < Count(b, opponent)
  {
    var playerPieces := Count(b, player);
    var opponentPieces := Count(b, opponent);
    if playerPieces > opponentPieces then 1
    else if playerPieces == opponentPieces then 0
    else -1
  }

  /** The piece-count term is antisymmetric between the two sides. */
  lemma CountEvalAntisymmetric(b: Board, player: Cell, opponent: Cell)
    ensures CountEval(b, opponent, player) == -CountEval(b, player, opponent)
  {
  }

  function Is(b: Board, i: int, who: Cell): int
    requires 0 <= i < |b|
  {
    if b[i] == who then 1 else 0
  }

  /** The four corner indices, in the order the source adds them. */
  const CORNERS: seq<int> := [0, WIDTH - 1, (WIDTH - 1) * WIDTH, WIDTH * WIDTH - 1]

  /** The contents of the four corners. */
  function CornerCells(b: Board): seq<Cell>
    requires ValidBoard(b)
  {
    [b[CORNERS[0]], b[CORNERS[1]], b[CORNERS[2]], b[CORNERS[3]]]
  }

  /** `corners_player`: how many corners `player` holds. */
  function CornersPlayer(b: Board, player: Cell): (r: int)
    requires ValidBoard(b)
    ensures 0 <= r <= 4
  {
    Is(b, CORNERS[0], player) + Is(b, CORNERS[1], player) + Is(b, CORNERS[2], player) + Is(b, CORNERS[3], player)
  }

  /** `corners_player` counts the corners holding `player`. */
  lemma CornersPlayerCount(b: Board, player: Cell)
    requires ValidBoard(b)
    ensures CornersPlayer(b, player) == Count(CornerCells(b), player)
  {
    var cs := CornerCells(b);
    assert Count(cs[3..], player) == Is(b, CORNERS[3], player) + Count(cs[4..], player);
    assert Count(cs[2..], player) == Is(b, CORNERS[2], player) + Count(cs[3..], player);
    assert Count(cs[1..], player) == Is(b, CORNERS[1], player) + Count(cs[2..], player);
    assert Count(cs, player) == Is(b, CORNERS[0], player) + Count(cs[1..], player);
  }

  /** `corners_opponent` as written: the top-left corner is negated, the
      other three are not. */
  function CornersOpponent(b: Board, opponent: Cell): (r: int)
    requires ValidBoard(b)
    ensures -1 <= r <= 3
  {
    -1 * Is(b, CORNERS[0], opponent) + Is(b, CORNERS[1], opponent) + Is(b, CORNERS[2], opponent) + Is(b, CORNERS[3], opponent)
  }

  /** As written, `corners_opponent` counts the opponent's corners other
      than the top-left one and subtracts the top-left one. */
  lemma CornersOpponentCount(b: Board, opponent: Cell)
    requires ValidBoard(b)
    ensures CornersOpponent(b, opponent) == Count(CornerCells(b)[1..], opponent) - Count(CornerCells(b)[..1], opponent)
  {
    var cs := CornerCells(b);
    assert Count(cs[3..], opponent) == Is(b, CORNERS[3], opponent) + Count(cs[4..], opponent);
    assert Count(cs[2..], opponent) == Is(b, CORNERS[2], opponent) + Count(cs[3..], opponent);
    assert Count(cs[1..], opponent) == Is(b, CORNERS[1], opponent) + Count(cs[2..], opponent);
    assert Count(cs[..1], opponent) == Is(b, CORNERS[0], opponent) + Count(cs[..1][1..], opponent);
  }

  /** `corners_eval`: for two distinct sides each corner adds one when either
      side holds it, except the top-left, which adds one for `player` and
      subtracts one for `opponent`. */
  function CornersEval(b: Board, player: Cell, opponent: Cell): (r: int)
    requires ValidBoard(b)
    ensures player != opponent ==> -1 <= r <= 4
  {
    CornersPlayer(b, player) + CornersOpponent(b, opponent)
  }

  /** Python's `state == player`: a list is never equal to a cell id. */
  predicate BoardEqualsId(b: Board, id: Cell) {
    false
  }

  /** `len([x for x in state if state == player and ...])`: the filter does
      not depend on `x`, and the `state % WIDTH` tests after `and` are never
      reached. */
  function EdgeCount(b: Board, cells: seq<Cell>, who: Cell): nat {
    if |cells| == 0 then 0
    else (if BoardEqualsId(b, who) then 1 else 0) + EdgeCount(b, cells[1..], who)
  }

  /** `edges_eval = edges_player + edges_opponent`, with each count divided
      by the 64 cells. Both counts are zero, so the term is zero. */
  function EdgesEval(b: Board, player: Cell, opponent: Cell): (r: real)
    ensures r == 0.0
  {
    EdgeCountZero(b, b, player);
    EdgeCountZero(b, b, opponent);
    (EdgeCount(b, b, player) as real) / ((WIDTH * HEIGHT) as real)
    + (-1 * EdgeCount(b, b, opponent)) as real / ((WIDTH * HEIGHT) as real)
  }

  /** The edge filter selects no cell: its test `state == player` compares
      the whole board list with a cell id, which Python answers with False
      (`BoardEqualsId`), whatever the cell. So the count is zero for every
      list of cells. */
  lemma {:induction false} EdgeCountZero(b: Board, cells: seq<Cell>, who: Cell)
    ensures EdgeCount(b, cells, who) == 0
    decreases |cells|
  {
    if |cells| > 0 {
      EdgeCountZero(b, cells[1..], who);
    }
  }

  /** `evaluation(current_state, player_to_check)`. The edge term vanishes, so
      the score is 2 * count_eval + 1.5 * corners_eval, and for the two sides
      of a game it lies in [-3.5, 8]. */
  function Evaluate(s: State, playerToCheck: Cell): (r: real)
    requires ValidBoard(s.board)
    ensures r == 2.0 * CountEval(s.board, playerToCheck, Opponent(playerToCheck)) as real
                 + 1.5 * CornersEval(s.board, playerToCheck, Opponent(playerToCheck)) as real
    ensures -3.5 <= r <= 8.0
  {
    var player := playerToCheck;
    var opponent := Opponent(player);
    var countEval := CountEval(s.board, player, opponent);
    var cornersEval := CornersEval(s.board, player, opponent);
    var edgesEval := EdgesEval(s.board, player, opponent);
    countEval as real * 2.0 + cornersEval as real * 1.5 + edgesEval * 1.2
  }

  /** Putting `player` on an empty corner raises the corner term by exactly
      one: the corner weight is counted once. */
  lemma CornerCountedOnce(b: Board, player: Cell, c: int)
    requires ValidBoard(b) && player != Empty && c in CORNERS && b[c] == Empty
    ensures CornersEval(b[c := player], player, Opponent(player)) == CornersEval(b, player, Opponent(player)) + 1
  {
  }
}
