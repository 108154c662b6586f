# reversi-ai search core in Dafny

This project models the game-tree engine of a Reversi (Othello) player,
`game/ai.py` and `game/settings.py`, and proves properties of the model. The
engine is built from these parts:

- the board geometry: eight compass offsets on a flat, row-major 8x8 board,
  and the `outside_board` edge test;
- legal-move generation (`get_moves`, `mark_move`, `actions`);
- the state transition (`next_state`);
- the static evaluation (`evaluation`);
- a depth-limited, fail-hard alpha-beta search (`alpha_beta`, `is_min`,
  `is_leaf`);
- the coordinator of a Principal Variation Split (`pvsplit`, `run`). It
  searches the first action itself, hands every other sibling to a worker
  process chosen round robin under one frozen window, files the `(order,
  score)` replies in a table, and folds the table into `(alpha, best action)`.

Modules, one per concern:

| module | file | models |
|---|---|---|
| `Optional` | optional.dfy | an `Option` type |
| `Settings` | settings.dfy | `game/settings.py`: directions, `outside_board`, `get_opponent`, `chunks` |
| `GameState` | gamestate.dfy | cell ids, board, `(player, board)` state, `make_state`, `opponent` |
| `Moves` | moves.dfy | `mark_move`, `get_moves`, `actions` |
| `Transition` | transition.dfy | `next_state` |
| `Scores` | scores.dfy | scores as reals extended with the two infinities |
| `Evaluation` | evaluation.dfy | `evaluation` |
| `Search` | search.dfy | `alpha_beta`, `is_min`, `is_leaf`, and a minimax reference |
| `PvSplit` | pvsplit.dfy | `pvsplit` and `run`, without the message transport |

The main results:

- `Moves.GetMovesSpec`: a coordinate is returned by `get_moves` exactly when
  it is a legal move. A legal move is an empty cell at the end of a run of
  opponent pieces. The run starts one step from one of the mover's pieces and
  never crosses a board edge.
- `Search.AlphaBetaExact`: at an inner node with alpha <= beta, `alpha_beta`
  returns the plain minimax value clamped into [alpha, beta]. At a leaf it
  returns the evaluation.
- `PvSplit.PvsplitSizeIndependent`: with workers that answer each task with
  `alpha_beta`, the multi-process `pvsplit` returns the same score and action
  as the single-process one. This holds even though the dispatched tasks
  carry a frozen alpha that may lie below the live alpha of the serial
  loop. A child that scores above the live alpha, and not above beta, under
  the frozen window scores the same under the live window
  (`FrozenLiveStep`).
- `Transition.NextStateWalks`: what `next_state` does to every cell.

## How the model reads the code

- **Cell ids.** `BOARD_ID`, `WHITE_ID` and `BLACK_ID` are used but not
  defined in the two files. They are the three values of `Cell`. `make_state`
  maps the UI label `MOVE` to `BOARD_ID` (game/ai.py:26), so a move marker is
  an empty cell.
- **Boards are values.** `next_state` writes into the list it is given, and
  the copy at game/ai.py:202 is commented out. In the source, the siblings
  searched by `alpha_beta` and `pvsplit` therefore see a board already changed
  by earlier siblings. The model gives every child its own board; this
  departs from the code on purpose.
- **`next_state` as written.** The mover's piece goes on the action cell.
  Then, for each direction whose first neighbour has an index in [0, 56),
  every cell from that neighbour on is overwritten with the mover's piece
  until an empty cell is met or the index leaves [0, 64). The walk:
  - does not stop at the mover's own pieces;
  - does not use `outside_board`, so it runs on into the next row;
  - never walks a direction whose first neighbour is on the bottom row.

  `NextStateWalks` states exactly this. Nothing in the model claims that
  `next_state` flips only the outflanked runs.
- **Evaluation as written.** In `corners_opponent`, only the top-left term
  is negated (game/ai.py:168-171). The edge term is always zero because its
  filter compares the whole board with a player id (game/ai.py:174-178). So
  the score is 2 * count_eval + 1.5 * corners_eval, and `Evaluate` says so.
- **Scores.** `1.0e400` is a float overflow to infinity (game/ai.py:18).
  Scores are `NegInf | Fin(real) | PosInf` with Python's order on them. The
  evaluation's weights 2, 1.5 and 1.2 are exact reals.
- **`opponent`** uses `is`. The model assumes that `is` on two cell ids
  agrees with `==`, which holds for CPython's cached small integers but
  depends on values that these files do not define. Under that assumption
  WHITE gives BLACK, and anything else gives WHITE.
- **`pvsplit` error paths.** These become results of `PvOutcome`:
  - at the root with no action, `actions[0]` raises `IndexError`; this is
    `NoLegalMove`, the signal a caller needs for a pass;
  - a reply whose order has no row is a `KeyError`, `UnknownOrder`;
  - folding a row whose score is still `None` fails the comparison,
    `Unanswered`.
- **Processes.** `SIZE` is the parameter `size`. The workers are not in the
  source; a worker is a parameter `SearchTask -> Score`, and its replies
  arrive in dispatch order. `CollectOrderIndependent` shows that any other
  arrival order of the same replies files the same table.

Behaviour of the code a reader might not expect, which the model keeps:
- the fold cuts off only on a score strictly above beta;
- the first action is searched by a recursive `pvsplit` call that maximises
  on every ply, not by `alpha_beta`;
- `next_state` does not stop at the mover's own piece or at the side edges;
- the edge term of the evaluation is zero;
- at the root with no action the code raises `IndexError`; the model
  reports it as `NoLegalMove`.

## Model

| member | source | states |
|---|---|---|
| Settings.DirectionsWellFormed | game/settings.py:5-14 | the eight offsets are distinct and non-zero; each is dx + 8*dy for a unit grid vector; every non-zero unit grid vector is among them |
| Settings.OutsideBoard | game/settings.py:37-47 | as written: a step is refused when the direction has a northward part and the tile is on the top row, a southward part and the tile is on the bottom row, an eastward part and the tile is in the right column, or a westward part and the tile is in the left column; `StepGeometry` states what this means on the grid |
| Settings.StepGeometry | game/settings.py:37-47 | `outside_board(tile, d)` holds exactly when the step would take the column or the row off the 8x8 grid; an allowed step lands on the board in the neighbouring row and column, so scans never wrap |
| Settings.GetOpponent | game/settings.py:24-30 | returns exactly for WHITE and BLACK, and then the other colour; every other label raises ValueError |
| Settings.GetOpponentInvolution | game/settings.py:24-30 | applying `get_opponent` twice to WHITE or BLACK gives it back |
| Settings.Chunks | game/settings.py:17-21 | for n > 0 the chunks concatenate back to the list; every chunk but the last has length n, and the last is non-empty and at most n long; a negative step yields nothing |
| Settings.ChunksCount | game/settings.py:17-21 | there are ceil(len(l) / n) chunks |
| GameState.MakeState | game/ai.py:23-27 | the state's player is the engine's first player; cell i is empty exactly for BOARD and MOVE labels, and is white or black exactly for those labels |
| GameState.MakeStateIgnoresMoveMarkers | game/ai.py:26 | clearing a move marker from the pieces leaves the engine's state unchanged |
| GameState.FirstPlayer | game/ai.py:19-20 | the first player is a real side, and it is white exactly when the UI says WHITE |
| GameState.CellOf | game/ai.py:26 | WHITE and BLACK become the same cell ids that the engine gives a first player of that colour; exactly BOARD and MOVE become the empty id |
| GameState.Opponent | game/ai.py:192-195 | the opponent is a real side different from the argument |
| GameState.OpponentInvolution | game/ai.py:192-195 | for a real side, the opponent's opponent is the side itself |
| GameState.IndexRoundTrip | game/ai.py:205-206 | an on-grid `(x, y)` has an on-board index x + 8y, and `(tile % 8, tile / 8)` of that index gives `(x, y)` back |
| GameState.ActionAtRoundTrip | game/ai.py:250 | the coordinate `mark_move` reports for an on-board tile is on the grid and indexes that tile |
| Moves.ScanRun | game/ai.py:242-248 | the scan over opponent pieces stays on the board and stops on a cell that is not the opponent's or at an edge |
| Moves.ScanRunIsRay | game/ai.py:242-250 | the scan ends on empty cell e exactly when an edge-respecting run of opponent pieces leads to e |
| Moves.MarkMove | game/ai.py:233-252 | the reported tile is on the board and the reported `(x, y)` is its coordinate; a found move is an empty on-grid cell |
| Moves.MarkMoveIsRay | game/ai.py:233-252 | `mark_move` finds e exactly when the first step is allowed and a run of opponent pieces from that step leads to the empty cell e |
| Moves.RayUnique | game/ai.py:242-250 | a scan over opponent pieces from a given cell in a given direction ends on at most one empty cell |
| Moves.MoveFromUnique | game/ai.py:233-252 | one origin tile and one direction find at most one move |
| Moves.MoveAt | game/ai.py:225-230 | what one tile and one direction contribute holds only on-grid coordinates of empty cells; `MoveAtSpec` says exactly when it is a move |
| Moves.MoveAtSpec | game/ai.py:225-230 | one tile and one direction yield `(x, y)` exactly when it is a legal move found from that tile in that direction |
| Moves.MoveAtYields | game/ai.py:225-230 | a legal move found from a tile in a direction is exactly what that iteration contributes, one entry long |
| Moves.MovesAt | game/ai.py:225-228 | the direction loop at one tile yields only on-grid coordinates of empty cells |
| Moves.MovesFrom | game/ai.py:225-228 | the tile loop yields only on-grid coordinates of empty cells |
| Moves.MovesAtSound | game/ai.py:227-228 | a move yielded by the direction loop at a tile is a legal move from that tile in one of those directions |
| Moves.MovesAtComplete | game/ai.py:227-228 | a legal move from a tile in a direction of the loop's range is yielded by the direction loop |
| Moves.MovesFromStep | game/ai.py:225-227 | the tile loop from a tile on finds what that tile finds, then what the following tiles find |
| Moves.MovesFromSound | game/ai.py:226 | a move found by the tile loop was found at one of its tiles |
| Moves.MovesFromComplete | game/ai.py:226 | a move found at any tile of the range is found by the tile loop |
| Moves.GetMoves | game/ai.py:222-230 | every returned coordinate is on the grid and names an empty cell; `GetMovesOrder` and `GetMovesDetermined` state order and duplicates |
| Moves.GetMovesSound | game/ai.py:222-230 | every returned coordinate is a legal move |
| Moves.GetMovesComplete | game/ai.py:222-230 | every legal move is returned |
| Moves.GetMovesSpec | game/ai.py:222-230 | a coordinate is returned exactly when it is on the grid and a legal move |
| Moves.GetMovesOrder | game/ai.py:222-230 | each returned coordinate is found by its own origin tile and direction; these sources strictly increase in tile-major, then `DIRECTIONS`, order; every origin and direction that finds a move is among them, so a coordinate appears once per source that finds it |
| Moves.GetMovesDetermined | game/ai.py:222-230 | any list that records one move for every finding origin and direction, in that loop order, is the result of `get_moves`, so its order and multiplicity are fixed by the board |
| Moves.NoPiecesNoMoves | game/ai.py:225-230 | a side with no piece on the board has no moves |
| Moves.Actions | game/ai.py:185-189 | the actions of a state are on-grid empty cells |
| Transition.OverwriteFrame | game/ai.py:212-217 | one walk puts the mover's piece only on cells that were occupied and changes nothing else |
| Transition.Overwrite | game/ai.py:212-217 | one walk keeps a 64-cell board; `OverwriteExact` states which cells it writes |
| Transition.OverwriteExact | game/ai.py:212-217 | one walk writes the mover's piece on exactly the cells of its run, cut only by an empty cell or the index range, and leaves all other cells alone |
| Transition.OverwriteKeepsOccupancy | game/ai.py:212-217 | for a real side, a walk neither fills nor empties any cell |
| Transition.InRunFrame | game/ai.py:212-217 | a walk depends only on the occupancy ahead of its start |
| Transition.OverwriteOneExact | game/ai.py:208-217 | one pass of the direction loop writes exactly the cells walked in that direction, and a direction whose first neighbour is outside [0, 56) is skipped |
| Transition.OverwriteOne | game/ai.py:208-217 | one pass of the direction loop keeps a 64-cell board; `OverwriteOneExact` states which cells it writes |
| Transition.OverwriteAll | game/ai.py:207-217 | the direction loop keeps a 64-cell board; `OverwriteAllExact` states which cells it writes |
| Transition.OverwriteAllFrame | game/ai.py:207-217 | the direction loop only ever puts the mover's piece on occupied cells |
| Transition.OverwriteAllExact | game/ai.py:207-217 | the direction loop writes the mover's piece on exactly the cells walked by its directions |
| Transition.WalkedFromSome | game/ai.py:207-210 | a cell is walked by the loop from direction i on exactly when some direction j >= i walks it |
| Transition.WalkedFromFrame | game/ai.py:206-210 | the walks never read the action cell, so placing the piece first does not change them |
| Transition.NextState | game/ai.py:198-219 | the opponent moves next; the board keeps 64 cells; the action cell holds the mover's piece; every other cell keeps its value or was occupied and now holds the mover's piece |
| Transition.NextStateWalks | game/ai.py:198-219 | for a real side, a cell holds the mover's piece afterwards exactly when it is the action cell or lies on a walk; every other cell is unchanged |
| Transition.NextStateOccupied | game/ai.py:206-217 | for a real side, the occupied count grows by one when the action cell was empty and is unchanged otherwise |
| Evaluation.CountEval | game/ai.py:150-156 | +1, 0 or -1 exactly as the player has more, as many or fewer pieces than the opponent |
| Evaluation.CountEvalAntisymmetric | game/ai.py:150-156 | swapping the sides negates the piece-count term |
| Evaluation.CornersPlayer | game/ai.py:164-167 | lies in [0, 4] |
| Evaluation.CornersPlayerCount | game/ai.py:164-167 | is the number of the four corners that hold the player |
| Evaluation.CornersOpponent | game/ai.py:168-171 | as written, lies in [-1, 3] |
| Evaluation.CornersOpponentCount | game/ai.py:168-171 | as written: each opponent corner other than the top-left counts plus one, and the top-left counts minus one |
| Evaluation.CornersEval | game/ai.py:172 | for two distinct sides, lies in [-1, 4] |
| Evaluation.BoardEqualsId | game/ai.py:174-176 | as written: `state == player` compares the board list with a cell id and is always False |
| Evaluation.EdgeCount | game/ai.py:174-177 | as written: the filtered list has one entry per cell when the whole-board comparison holds, which it never does |
| Evaluation.EdgesEval | game/ai.py:174-178 | the edge term is zero on every board |
| Evaluation.EdgeCountZero | game/ai.py:174-178 | the edge filter never selects a cell, so both edge counts are zero |
| Evaluation.Evaluate | game/ai.py:141-182 | the score is 2 * count_eval + 1.5 * corners_eval and lies in [-3.5, 8] |
| Evaluation.CornerCountedOnce | game/ai.py:164-172 | putting the player on an empty corner raises the corner term by exactly one |
| Scores.LeTotalOrder | game/ai.py:123-131 | the comparison of scores with the two infinities is a total order |
| Search.IsMin | game/ai.py:137-138 | as written: odd depths are minimising plies; `IsMinAlternates` states the alternation |
| Search.IsLeaf | game/ai.py:254-257 | as written: a depth beyond the limit is a leaf |
| Search.IsMinAlternates | game/ai.py:137-138 | plies alternate between minimising and maximising, and the root ply maximises |
| Search.AlphaBeta | game/ai.py:110-134 | at the depth limit or without actions the result is the evaluation for the side that has just moved; otherwise, with alpha <= beta, it lies in [alpha, beta] |
| Search.AbLoop | game/ai.py:116-134 | a minimising loop stays in [alpha, best] and a maximising loop in [best, beta] |
| Search.AbLoopPinnedMin | game/ai.py:121-126 | a minimising loop whose best has fallen to alpha returns alpha |
| Search.AbLoopPinnedMax | game/ai.py:127-132 | a maximising loop whose best has risen to beta returns beta |
| Search.AbLoopExact | game/ai.py:118-134 | the loop returns the minimax fold of the remaining children clamped by alpha (minimising) or beta (maximising) |
| Search.AlphaBetaExact | game/ai.py:110-134 | alpha-beta equals minimax at a leaf, equals minimax clamped into [alpha, beta] at an inner node, and always agrees with minimax after clamping |
| Search.AlphaBetaFullWindow | game/ai.py:110-134 | with the infinite window alpha-beta returns the minimax value |
| PvSplit.RoundRobin | game/ai.py:49-75 | the k-th task's rank is a worker rank in [1, size) |
| PvSplit.NextRank | game/ai.py:75 | from the coordinator or any worker rank, the next rank is a worker rank in [1, size) |
| PvSplit.NextRankRoundRobin | game/ai.py:75 | one step of the rank update takes task k's rank to task k+1's rank, 1 + (k+1) mod (size-1) |
| PvSplit.RankAfterRoundRobin | game/ai.py:49-75 | j steps of the rank update from task k's rank give task k+j's rank |
| PvSplit.DispatchFrom | game/ai.py:53-75 | from sibling k on, task k+j goes j rotation steps past the current rank, has order k+j, holds the sibling's child one ply deeper, carries the window the loop was entered with and has no score |
| PvSplit.Dispatch | game/ai.py:49-75 | sibling j+1 becomes row j, with rank 1 + j mod (size-1), order j, the frozen window and the child position |
| PvSplit.RankRotationExample | game/ai.py:49-75 | seven siblings over four processes go to ranks 1, 2, 3, 1, 2, 3, 1 |
| PvSplit.Collect | game/ai.py:92-95 | filing fails exactly when some reply names an order with no row; otherwise only scores change |
| PvSplit.CollectSpec | game/ai.py:92-95 | with distinct orders that all have rows, each row holds the score of the reply naming it, or is untouched when none does |
| PvSplit.CollectOrderIndependent | game/ai.py:92-95 | two arrival orders of the same replies file the same table |
| PvSplit.CollectWorkerReplies | game/ai.py:92-95 | one reply per dispatched task fills every row with the worker's score for its task |
| PvSplit.Fold | game/ai.py:97-107 | an answered table folds to a result within [alpha, beta] whose action is the incoming one or a row's; an unanswered row is reported |
| PvSplit.FoldCutoff | game/ai.py:97-101 | the first row scoring strictly above beta decides the fold: `(beta, its action)` |
| PvSplit.FoldNoCutoff | game/ai.py:97-107 | without a cut-off the fold returns the maximum of alpha and the scores, and returns alpha with the incoming action when no score beats alpha |
| PvSplit.FoldArgmax | game/ai.py:103-107 | without a cut-off, when some score beats alpha the fold returns the first row reaching the maximum, with its action |
| PvSplit.SerialSiblings | game/ai.py:76-85 | the single-process loop returns a result within the window whose action is the incoming one or a later sibling's |
| PvSplit.ParallelSiblings | game/ai.py:48-107 | the multi-process path returns a result within the window whose action is the incoming one or a sibling's |
| PvSplit.AfterPrincipal | game/ai.py:43-107 | after the first action, the result's action is one of the actions and its score lies within the window |
| PvSplit.Pvsplit | game/ai.py:32-107 | `NoLegalMove` exactly at a root without actions; a non-root leaf returns its evaluation and the action leading to it; otherwise the action is legal and the score lies within the window |
| PvSplit.Run | game/ai.py:29-30 | the root search reports no move exactly when there is no action, and otherwise returns a legal action |
| PvSplit.FrozenLiveStep | game/ai.py:110-134 | a child searched under a lower and a higher alpha agrees on a cut-off and on beating the higher alpha, and gives the same score when it does |
| PvSplit.AlphaBetaWindowStable | game/ai.py:110-134 | `alpha_beta` has that property for every valid position |
| PvSplit.SerialStep | game/ai.py:78-85 | a sibling above beta ends the serial loop with its action; one not above alpha leaves the loop state unchanged |
| PvSplit.SerialRaise | game/ai.py:83-85 | a sibling above alpha and not above beta becomes the new alpha and best action |
| PvSplit.FrozenEqualsLive | game/ai.py:97-107 | folding frozen-window scores equals the serial loop with its live window |
| PvSplit.DispatchRows | game/ai.py:53-75 | every dispatched row holds its sibling's action and task |
| PvSplit.WorkerRows | game/ai.py:92-95 | the replies of a worker running a search fill each row with that search's score under the dispatch window |
| PvSplit.FoldCollected | game/ai.py:92-107 | filing and folding the replies of a window-stable search gives what the serial loop with that search gives |
| PvSplit.ParallelEqualsSerial | game/ai.py:48-107 | with `alpha_beta` workers, the multi-process sibling search equals the single-process one |
| PvSplit.AfterPrincipalSizeIndependent | game/ai.py:43-107 | with `alpha_beta` workers, what follows the first action does not depend on the number of processes |
| PvSplit.PvsplitSizeIndependent | game/ai.py:32-107 | with `alpha_beta` workers, `pvsplit` returns the same result for any number of processes |

## Left out

- The MPI transport is not modelled: `COMM`, `isend`, `irecv`, `wait` and the
  discovery of `SIZE` (game/ai.py:2-5, 68, 92-94). `SIZE` is a parameter.
  Workers are a function from a task to its score, and replies come in
  dispatch order; `CollectOrderIndependent` covers any other arrival order.
- No worker loop appears in these files. The equivalence theorems assume a
  worker that runs `alpha_beta` on the task's fields (`WorkerSound`).
- The unused `mutex` (game/ai.py:12) is left out, because it has no effect
  on the search.
- The unused `moves` computed by `evaluation` (game/ai.py:151) is left out,
  because it has no effect on the score.
- The commented-out mobility term (game/ai.py:158-162) is left out, because
  it is not code.
- Floating point is not modelled: scores are exact reals with the two
  infinities, so rounding does not occur.
- In-place mutation and aliasing of boards between siblings is not modelled.
  Boards are values, as described above.
- game/brain.py, reversi.py, test.py, test_pyopencl.py, and the `Game` and
  `Piece` classes are not part of this model. They cover threads, the
  command line, MPI demos, OpenCL, rendering and human input.
- The standard opening position is not worked through: no concrete lemma
  shows its four legal moves. Evaluating all 512 tile and direction scans
  symbolically is too costly.
- Settings.Chunks: requires n != 0. Python's `range` raises ValueError for a
  zero step before anything is produced, and the model does not carry that
  error.
- Transition.NextStateWalks: requires a real side to move (not an empty
  cell). The engine only ever moves WHITE_ID or BLACK_ID; with an empty
  "player", `next_state` would empty cells and the walks would read a
  changing occupancy.
- Transition.OverwriteExact: requires a real side, for the same reason.
- Transition.OverwriteAllExact: requires a real side, for the same reason.
- Transition.OverwriteOneExact: requires a real side, for the same reason.
- Transition.OverwriteKeepsOccupancy: requires a real side, for the same
  reason.
- Transition.NextStateOccupied: requires a real side, for the same reason.
- PvSplit.PvsplitSizeIndependent: requires alpha <= beta, which every call
  from `run` satisfies. It also assumes workers that run `alpha_beta`.
