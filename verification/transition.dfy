/** The state transition `next_state`, as the source writes it: the mover's
    piece is placed on the action cell, then for each direction the cells
    outward from it are overwritten with the mover's piece until an empty cell
    or the top or bottom of the flat board is reached. The walk tests only the
    flat index range, so it does not stop at the mover's own pieces, does not
    respect the left and right edges (it continues on the next row), and
    skips every direction whose first neighbour has an index of 56 or more. */
module Transition {
  import opened Settings
  import opened GameState

  /** The `while state[tile] != BOARD_ID` walk in direction `d` from `tile`. */
  function Overwrite(b: Board, player: Cell, tile: int, d: int): (r: Board)
    requires ValidBoard(b) && OnBoard(tile) && d != 0
    ensures ValidBoard(r)
    decreases Span(tile, d)
  {
    if b[tile] == Empty then b
    else
      var b' := b[tile := player];
      if tile + d < 0 || tile + d >= WIDTH * HEIGHT then b'
      else Overwrite(b', player, tile + d, d)
  }

  /** The `for d in DIRECTIONS` loop, from direction index `i` on, around the
      cell `at`. */
  function OverwriteAll(b: Board, player: Cell, at: int, i: nat): (r: Board)
    requires ValidBoard(b) && OnBoard(at) && i <= |DIRECTIONS|
    ensures ValidBoard(r)
    decreases |DIRECTIONS| - i
  {
    if i == |DIRECTIONS| then b
    else OverwriteAll(OverwriteOne(b, player, at, i), player, at, i + 1)
  }

  /** One pass of the `for d in DIRECTIONS` loop: a direction whose first
      neighbour has an index outside [0, 56) is skipped. */
  function OverwriteOne(b: Board, player: Cell, at: int, i: nat): (r: Board)
    requires ValidBoard(b) && OnBoard(at) && i < |DIRECTIONS|
    ensures ValidBoard(r)
  {
    var tile := at + DIRECTIONS[i];
    if tile < 0 || tile >= (WIDTH - 1) * WIDTH then b
    else Overwrite(b, player, tile, DIRECTIONS[i])
  }

  /** Cell `k` of `r` is that of `b`, or the mover's piece on a cell `b` had
      occupied. */
  predicate Framed(r: Board, b: Board, player: Cell, k: int)
    requires 0 <= k < |r| && 0 <= k < |b|
  {
    r[k] == b[k] || (r[k] == player && b[k] != Empty)
  }

  lemma FramedTrans(r: Board, m: Board, b: Board, player: Cell, k: int)
    requires 0 <= k < |r| && 0 <= k < |m| && 0 <= k < |b|
    requires Framed(r, m, player, k) && Framed(m, b, player, k)
    ensures Framed(r, b, player, k)
  {
  }

  /** The walk only ever puts the mover's piece on an occupied cell. */
  lemma {:induction false} OverwriteFrame(b: Board, player: Cell, tile: int, d: int, k: int)
    requires ValidBoard(b) && OnBoard(tile) && d != 0 && 0 <= k < |b|
    ensures Framed(Overwrite(b, player, tile, d), b, player, k)
    decreases Span(tile, d)
  {
    if b[tile] != Empty {
      var b' := b[tile := player];
      if 0 <= tile + d < WIDTH * HEIGHT {
        OverwriteFrame(b', player, tile + d, d, k);
        FramedTrans(Overwrite(b, player, tile, d), b', b, player, k);
      }
    }
  }

  /** So does the loop over all directions. */
  lemma {:induction false} OverwriteAllFrame(b: Board, player: Cell, at: int, i: nat, k: int)
    requires ValidBoard(b) && OnBoard(at) && i <= |DIRECTIONS| && 0 <= k < |b|
    ensures Framed(OverwriteAll(b, player, at, i), b, player, k)
    decreases |DIRECTIONS| - i
  {
    if i < |DIRECTIONS| {
      var tile := at + DIRECTIONS[i];
      var b' := OverwriteOne(b, player, at, i);
      if 0 <= tile < (WIDTH - 1) * WIDTH {
        OverwriteFrame(b, player, tile, DIRECTIONS[i], k);
      }
      OverwriteAllFrame(b', player, at, i + 1, k);
      FramedTrans(OverwriteAll(b, player, at, i), b', b, player, k);
    }
  }

  /** The frame of the loop over all directions, for every cell at once. */
  lemma OverwriteAllFrames(b: Board, player: Cell, at: int)
    requires ValidBoard(b) && OnBoard(at)
    ensures var r := OverwriteAll(b, player, at, 0);
            forall k :: 0 <= k < |b| ==> r[k] == b[k] || (r[k] == player && b[k] != Empty)
  {
    var r := OverwriteAll(b, player, at, 0);
    forall k | 0 <= k < |b| ensures r[k] == b[k] || (r[k] == player && b[k] != Empty) {
      OverwriteAllFrame(b, player, at, 0, k);
      assert Framed(r, b, player, k);
    }
  }

  /** `next_state`: the opponent moves next; the action cell holds the mover's
      piece; every other cell either keeps its value or was occupied and now
      holds the mover's piece. No empty cell other than the action cell is
      filled, and (for a real player) no occupied cell is emptied. */
  function NextState(s: State, action: Action): (r: State)
    requires ValidBoard(s.board) && OnGrid(action)
    ensures r.player == Opponent(s.player)
    ensures ValidBoard(r.board)
    ensures r.board[Index(action)] == s.player
    ensures forall k :: 0 <= k < |s.board| && k != Index(action) ==>
              r.board[k] == s.board[k] || (r.board[k] == s.player && s.board[k] != Empty)
  {
    var at := Index(action);
    OverwriteAllFrames(s.board[at := s.player], s.player, at);
    State(Opponent(s.player), OverwriteAll(s.board[at := s.player], s.player, at, 0))
  }

  /** Cells that are not empty. */
  function Occupied(b: seq<Cell>): nat {
    |b| - Count(b, Empty)
  }

  /** Two boards of equal length whose empty cells coincide except at one
      index, empty only in the first, differ by one in their empty count. */
  lemma {:induction false} EmptyCountDropsByOne(b: seq<Cell>, r: seq<Cell>, at: int)
    requires |b| == |r| && 0 <= at < |b|
    requires b[at] == Empty && r[at] != Empty
    requires forall k :: 0 <= k < |b| && k != at ==> (b[k] == Empty <==> r[k] == Empty)
    ensures Count(r, Empty) + 1 == Count(b, Empty)
    decreases |b|
  {
    if at > 0 {
      EmptyCountDropsByOne(b[1..], r[1..], at - 1);
    } else {
      EmptyCountEqual(b[1..], r[1..]);
    }
  }

  lemma {:induction false} EmptyCountEqual(b: seq<Cell>, r: seq<Cell>)
    requires |b| == |r|
    requires forall k :: 0 <= k < |b| ==> (b[k] == Empty <==> r[k] == Empty)
    ensures Count(r, Empty) == Count(b, Empty)
    decreases |b|
  {
    if |b| > 0 {
      EmptyCountEqual(b[1..], r[1..]);
    }
  }

  /** For a real player, the move fills exactly the action cell: the occupied
      count grows by one when that cell was empty and is unchanged otherwise. */
  lemma NextStateOccupied(s: State, action: Action)
    requires ValidBoard(s.board) && OnGrid(action) && s.player != Empty
    ensures var r := NextState(s, action);
            Occupied(r.board) == Occupied(s.board) + (if s.board[Index(action)] == Empty then 1 else 0)
  {
    var r := NextState(s, action);
    var at := Index(action);
    if s.board[at] == Empty {
      EmptyCountDropsByOne(s.board, r.board, at);
    } else {
      EmptyCountEqual(s.board, r.board);
    }
  }

  /** Which cells are occupied (by either side): all a walk looks at. */
  function Occupancy(b: Board): (occ: seq<bool>)
    ensures |occ| == |b|
    ensures forall j :: 0 <= j < |b| ==> (occ[j] <==> b[j] != Empty)
  {
    seq(|b|, j requires 0 <= j < |b| => b[j] != Empty)
  }

  /** Cell `k` lies on the walk that starts at `tile` in direction `d` over
      the occupancy `occ`: the walk visits a cell while it is occupied and
      its index stays in [0, 64). */
  ghost predicate InRun(occ: seq<bool>, tile: int, d: int, k: int)
    decreases Span(tile, d)
  {
    && |occ| == WIDTH * HEIGHT && OnBoard(tile) && d != 0
    && occ[tile]
    && (k == tile || (OnBoard(tile + d) && InRun(occ, tile + d, d, k)))
  }

  /** `k` is not behind `tile` when walking in direction `d`. */
  predicate Ahead(tile: int, d: int, k: int) {
    if d > 0 then k >= tile else k <= tile
  }

  /** A walk only depends on the occupancy ahead of its start. */
  lemma {:induction false} InRunFrame(occ: seq<bool>, occ': seq<bool>, tile: int, d: int, k: int)
    requires |occ| == |occ'|
    requires forall j :: 0 <= j < |occ| && Ahead(tile, d, j) ==> occ[j] == occ'[j]
    ensures InRun(occ, tile, d, k) <==> InRun(occ', tile, d, k)
    decreases Span(tile, d)
  {
    if OnBoard(tile) && d != 0 && OnBoard(tile + d) && k != tile {
      InRunFrame(occ, occ', tile + d, d, k);
    }
  }

  /** Putting a real piece on an occupied cell keeps the occupancy. */
  lemma OccupancyUpdate(b: Board, tile: int, player: Cell)
    requires 0 <= tile < |b| && b[tile] != Empty && player != Empty
    ensures Occupancy(b[tile := player]) == Occupancy(b)
  {
  }

  /** For a real player, a walk keeps the occupancy. */
  lemma {:induction false} OverwriteKeepsOccupancy(b: Board, player: Cell, tile: int, d: int)
    requires ValidBoard(b) && OnBoard(tile) && d != 0 && player != Empty
    ensures Occupancy(Overwrite(b, player, tile, d)) == Occupancy(b)
    decreases Span(tile, d)
  {
    if b[tile] != Empty {
      OccupancyUpdate(b, tile, player);
      if 0 <= tile + d < WIDTH * HEIGHT {
        OverwriteKeepsOccupancy(b[tile := player], player, tile + d, d);
      }
    }
  }

  /** The walk writes the mover's piece on exactly the cells of the run and
      leaves every other cell alone; the run is cut only by an empty cell or
      the flat index range, never by the mover's own pieces or a side edge. */
  lemma {:induction false} OverwriteExact(b: Board, player: Cell, tile: int, d: int, k: int)
    requires ValidBoard(b) && OnBoard(tile) && d != 0 && 0 <= k < |b| && player != Empty
    ensures Overwrite(b, player, tile, d)[k] == if InRun(Occupancy(b), tile, d, k) then player else b[k]
    decreases Span(tile, d)
  {
    if b[tile] != Empty {
      var b' := b[tile := player];
      OccupancyUpdate(b, tile, player);
      if OnBoard(tile + d) {
        OverwriteExact(b', player, tile + d, d, k);
      }
    }
  }

  /** `k` is on the walk of direction `DIRECTIONS[j]` from `at`, a walk that
      only starts when the first neighbour has an index in [0, 56). */
  ghost predicate WalkedBy(occ: seq<bool>, at: int, j: int, k: int)
    requires 0 <= j < |DIRECTIONS|
  {
    0 <= at + DIRECTIONS[j] < (WIDTH - 1) * WIDTH && InRun(occ, at + DIRECTIONS[j], DIRECTIONS[j], k)
  }

  /** `k` is on the walk of some direction `DIRECTIONS[j]` with `j >= i`. */
  ghost predicate WalkedFrom(occ: seq<bool>, at: int, i: nat, k: int)
    decreases |DIRECTIONS| - i
  {
    i < |DIRECTIONS| && (WalkedBy(occ, at, i, k) || WalkedFrom(occ, at, i + 1, k))
  }

  /** `WalkedFrom` holds exactly when one of the directions from `i` on
      walks over `k`. */
  lemma {:induction false} WalkedFromSome(occ: seq<bool>, at: int, i: nat, k: int)
    ensures WalkedFrom(occ, at, i, k) <==> exists j :: i <= j < |DIRECTIONS| && WalkedBy(occ, at, j, k)
    decreases |DIRECTIONS| - i
  {
    if i < |DIRECTIONS| {
      WalkedFromSome(occ, at, i + 1, k);
      if exists j :: i <= j < |DIRECTIONS| && WalkedBy(occ, at, j, k) {
        var j :| i <= j < |DIRECTIONS| && WalkedBy(occ, at, j, k);
        if j != i {
          assert i + 1 <= j < |DIRECTIONS| && WalkedBy(occ, at, j, k);
        }
      }
    }
  }

  /** The walks from `at` never look at `at` itself. */
  lemma {:induction false} WalkedFromFrame(occ: seq<bool>, occ': seq<bool>, at: int, i: nat, k: int)
    requires |occ| == |occ'|
    requires forall j :: 0 <= j < |occ| && j != at ==> occ[j] == occ'[j]
    ensures WalkedFrom(occ, at, i, k) <==> WalkedFrom(occ', at, i, k)
    decreases |DIRECTIONS| - i
  {
    if i < |DIRECTIONS| {
      var d := DIRECTIONS[i];
      if 0 <= at + d < (WIDTH - 1) * WIDTH {
        InRunFrame(occ, occ', at + d, d, k);
      }
      WalkedFromFrame(occ, occ', at, i + 1, k);
    }
  }

  /** One pass of the loop writes the mover's piece on exactly the cells
      walked by direction `i`, and keeps the occupancy. */
  lemma OverwriteOneExact(c: Board, player: Cell, at: int, i: nat, k: int)
    requires ValidBoard(c) && OnBoard(at) && i < |DIRECTIONS| && 0 <= k < |c| && player != Empty
    ensures OverwriteOne(c, player, at, i)[k] == if WalkedBy(Occupancy(c), at, i, k) then player else c[k]
    ensures Occupancy(OverwriteOne(c, player, at, i)) == Occupancy(c)
  {
    var d := DIRECTIONS[i];
    var tile := at + d;
    if 0 <= tile < (WIDTH - 1) * WIDTH {
      OverwriteKeepsOccupancy(c, player, tile, d);
      OverwriteExact(c, player, tile, d, k);
    }
  }

  /** The loop over the directions from `i` on writes the mover's piece on
      exactly the cells walked by those directions. */
  lemma {:induction false} OverwriteAllExact(c: Board, player: Cell, at: int, i: nat, k: int)
    requires ValidBoard(c) && OnBoard(at) && i <= |DIRECTIONS| && 0 <= k < |c| && player != Empty
    ensures OverwriteAll(c, player, at, i)[k] == if WalkedFrom(Occupancy(c), at, i, k) then player else c[k]
    decreases |DIRECTIONS| - i
  {
    if i < |DIRECTIONS| {
      var c' := OverwriteOne(c, player, at, i);
      OverwriteOneExact(c, player, at, i, k);
      OverwriteAllExact(c', player, at, i + 1, k);
    }
  }

  /** `next_state` exactly, for a real player: the action cell and every cell
      on the walk of a direction whose first neighbour has an index in
      [0, 56) become the mover's piece; every other cell is unchanged. */
  lemma NextStateWalks(s: State, action: Action, k: int)
    requires ValidBoard(s.board) && OnGrid(action) && s.player != Empty && 0 <= k < |s.board|
    ensures NextState(s, action).board[k] ==
              if k == Index(action) || WalkedFrom(Occupancy(s.board), Index(action), 0, k) then s.player else s.board[k]
  {
    var at := Index(action);
    var b1 := s.board[at := s.player];
    OverwriteAllExact(b1, s.player, at, 0, k);
    WalkedFromFrame(Occupancy(b1), Occupancy(s.board), at, 0, k);
  }
}
