/** Legal-move generation: from each of the mover's pieces, step once onto an
    opponent piece, keep stepping over opponent pieces without crossing an
    edge, and report the cell where the run ends if it is empty. */
module Moves {
  import opened Settings
  import opened GameState

  /** The `(found, x, y, tile)` tuple that `mark_move` returns. */
  datatype MarkResult = MarkResult(found: bool, x: int, y: int, tile: int)

  function Mark(found: bool, tile: int): MarkResult {
    MarkResult(found, tile % WIDTH, tile / HEIGHT, tile)
  }

  /** Declarative reading of a scan: `t` holds an opponent piece, a step from
      `t` does not leave the board, and `e` is either the next cell or is
      reached the same way from it. */
  ghost predicate Ray(b: Board, opponent: Cell, t: int, d: int, e: int)
    decreases Span(t, d)
  {
    && ValidBoard(b) && OnBoard(t) && d in DIRECTIONS
    && b[t] == opponent
    && !OutsideBoard(t, d)
    && (t + d == e || (StepShrinksSpan(t, d); Ray(b, opponent, t + d, d, e)))
  }

  /** `e` is a legal move for `player` found from `origin` in direction `d`:
      the origin holds the player's piece, the first step lands on an opponent
      piece, the run of opponent pieces continues without crossing an edge,
      and it ends on the empty cell `e`. */
  ghost predicate MoveFrom(b: Board, player: Cell, opponent: Cell, origin: int, d: int, e: int) {
    && ValidBoard(b) && OnBoard(origin) && d in DIRECTIONS
    && b[origin] == player
    && !OutsideBoard(origin, d)
    && Ray(b, opponent, origin + d, d, e)
    && OnBoard(e) && b[e] == Empty
  }

  lemma RayEndsOnBoard(b: Board, opponent: Cell, t: int, d: int, e: int)
    requires Ray(b, opponent, t, d, e)
    ensures OnBoard(e)
    decreases Span(t, d)
  {
    StepShrinksSpan(t, d);
    if t + d != e {
      RayEndsOnBoard(b, opponent, t + d, d, e);
    }
  }

  /** The `while pieces[tile] == opponent` loop of `mark_move`: the tile where
      the run of opponent pieces stops, either on a different cell or at an
      edge. */
  function ScanRun(opponent: Cell, t: int, b: Board, d: int): (e: int)
    requires ValidBoard(b) && OnBoard(t) && d in DIRECTIONS
    ensures OnBoard(e)
    ensures b[e] != opponent || OutsideBoard(e, d)
    decreases Span(t, d)
  {
    if b[t] != opponent then t
    else if OutsideBoard(t, d) then t
    else
      StepShrinksSpan(t, d);
      ScanRun(opponent, t + d, b, d)
  }

  /** The scan ends on an empty cell exactly when a ray of opponent pieces
      from `t` leads to that empty cell. */
  lemma {:induction false} ScanRunIsRay(opponent: Cell, t: int, b: Board, d: int, e: int)
    requires ValidBoard(b) && OnBoard(t) && d in DIRECTIONS
    requires opponent != Empty && b[t] == opponent
    ensures (ScanRun(opponent, t, b, d) == e && b[e] == Empty) <==>
            (Ray(b, opponent, t, d, e) && OnBoard(e) && b[e] == Empty)
    decreases Span(t, d)
  {
    if OutsideBoard(t, d) {
      assert ScanRun(opponent, t, b, d) == t;
    } else {
      StepShrinksSpan(t, d);
      if b[t + d] == opponent {
        ScanRunIsRay(opponent, t + d, b, d, e);
      }
    }
  }

  /** One `mark_move` call. */
  function MarkMove(player: Cell, opponent: Cell, tile: int, pieces: Board, direction: int): (m: MarkResult)
    requires ValidBoard(pieces) && OnBoard(tile) && direction in DIRECTIONS
    ensures OnBoard(m.tile) && m.x == m.tile % WIDTH && m.y == m.tile / HEIGHT
    ensures m.found ==> pieces[m.tile] == Empty && OnGrid(Action(m.x, m.y))
  {
    if OutsideBoard(tile, direction) then Mark(false, tile)
    else
      StepShrinksSpan(tile, direction);
      var t := tile + direction;
      if pieces[t] == opponent then
        var e := ScanRun(opponent, t, pieces, direction);
        Mark(pieces[e] == Empty, e)
      else Mark(false, t)
  }

  /** `mark_move` reports cell `e` exactly when a flanking ray from `tile`
      ends on it. */
  lemma MarkMoveIsRay(player: Cell, opponent: Cell, tile: int, b: Board, d: int, e: int)
    requires ValidBoard(b) && OnBoard(tile) && d in DIRECTIONS && opponent != Empty
    ensures (MarkMove(player, opponent, tile, b, d).found && MarkMove(player, opponent, tile, b, d).tile == e)
            <==> (!OutsideBoard(tile, d) && Ray(b, opponent, tile + d, d, e) && OnBoard(e) && b[e] == Empty)
  {
    if !OutsideBoard(tile, d) {
      StepShrinksSpan(tile, d);
      if b[tile + d] == opponent {
        ScanRunIsRay(opponent, tile + d, b, d, e);
      }
    }
  }

  /** The body of the inner `for d in DIRECTIONS` of `get_moves` for one
      tile and direction, already filtered to a found move. */
  function MoveAt(player: Cell, opponent: Cell, b: Board, tile: int, d: int): (r: seq<Action>)
    requires ValidBoard(b) && OnBoard(tile) && d in DIRECTIONS
    ensures |r| <= 1
    ensures forall a :: a in r ==> OnGrid(a) && b[Index(a)] == Empty
  {
    if !OutsideBoard(tile, d) && b[tile] == player then
      var m := MarkMove(player, opponent, tile, b, d);
      if m.found then [Action(m.x, m.y)] else []
    else []
  }

  /** The inner `for d in DIRECTIONS` of `get_moves` for one tile, from
      direction index `i` on. */
  function MovesAt(player: Cell, opponent: Cell, b: Board, tile: int, i: nat): (r: seq<Action>)
    requires ValidBoard(b) && OnBoard(tile) && i <= |DIRECTIONS|
    ensures forall a :: a in r ==> OnGrid(a) && b[Index(a)] == Empty
    decreases |DIRECTIONS| - i
  {
    if i == |DIRECTIONS| then []
    else MoveAt(player, opponent, b, tile, DIRECTIONS[i]) + MovesAt(player, opponent, b, tile, i + 1)
  }

  /** The outer `for tile in range(64)` of `get_moves`, from `tile` on. */
  function MovesFrom(player: Cell, opponent: Cell, b: Board, tile: nat): (r: seq<Action>)
    requires ValidBoard(b) && tile <= WIDTH * HEIGHT
    ensures forall a :: a in r ==> OnGrid(a) && b[Index(a)] == Empty
    decreases WIDTH * HEIGHT - tile
  {
    if tile == WIDTH * HEIGHT then []
    else MovesAt(player, opponent, b, tile, 0) + MovesFrom(player, opponent, b, tile + 1)
  }

  /** `get_moves`: the found moves in tile-major, then direction, order,
      duplicates kept. */
  function GetMoves(player: Cell, opponent: Cell, b: Board): (r: seq<Action>)
    requires ValidBoard(b)
    ensures forall a :: a in r ==> OnGrid(a) && b[Index(a)] == Empty
  {
    MovesFrom(player, opponent, b, 0)
  }

  /** `actions`: the moves of the player to move against its opponent. */
  function Actions(s: State): (r: seq<Action>)
    requires ValidBoard(s.board)
    ensures forall a :: a in r ==> OnGrid(a) && s.board[Index(a)] == Empty
  {
    GetMoves(s.player, Opponent(s.player), s.board)
  }

  /** One direction from one tile yields `a` exactly when `a` is a move
      found from that tile in that direction. */
  lemma MoveAtSpec(player: Cell, opponent: Cell, b: Board, tile: int, d: int, a: Action)
    requires ValidBoard(b) && OnBoard(tile) && d in DIRECTIONS && opponent != Empty
    ensures a in MoveAt(player, opponent, b, tile, d) <==>
            OnGrid(a) && MoveFrom(b, player, opponent, tile, d, Index(a))
  {
    var m := MarkMove(player, opponent, tile, b, d);
    if a in MoveAt(player, opponent, b, tile, d) {
      assert m.found && a == Action(m.x, m.y);
      ActionAtRoundTrip(m.tile);
      MarkMoveIsRay(player, opponent, tile, b, d, m.tile);
    }
    if OnGrid(a) && MoveFrom(b, player, opponent, tile, d, Index(a)) {
      IndexRoundTrip(a);
      MarkMoveIsRay(player, opponent, tile, b, d, Index(a));
      assert a == ActionAt(m.tile);
    }
  }

  lemma {:induction false} MovesAtSound(player: Cell, opponent: Cell, b: Board, tile: int, i: nat, a: Action)
    requires ValidBoard(b) && OnBoard(tile) && i <= |DIRECTIONS| && opponent != Empty
    requires a in MovesAt(player, opponent, b, tile, i)
    ensures exists j :: i <= j < |DIRECTIONS| && MoveFrom(b, player, opponent, tile, DIRECTIONS[j], Index(a))
    decreases |DIRECTIONS| - i
  {
    var here := MoveAt(player, opponent, b, tile, DIRECTIONS[i]);
    if a in here {
      MoveAtSpec(player, opponent, b, tile, DIRECTIONS[i], a);
      assert MoveFrom(b, player, opponent, tile, DIRECTIONS[i], Index(a));
    } else {
      assert a in MovesAt(player, opponent, b, tile, i + 1);
      MovesAtSound(player, opponent, b, tile, i + 1, a);
    }
  }

  lemma {:induction false} MovesAtComplete(player: Cell, opponent: Cell, b: Board, tile: int, i: nat, j: int, a: Action)
    requires ValidBoard(b) && OnBoard(tile) && opponent != Empty
    requires i <= j < |DIRECTIONS| && OnGrid(a)
    requires MoveFrom(b, player, opponent, tile, DIRECTIONS[j], Index(a))
    ensures a in MovesAt(player, opponent, b, tile, i)
    decreases |DIRECTIONS| - i
  {
    if j == i {
      MoveAtSpec(player, opponent, b, tile, DIRECTIONS[i], a);
    } else {
      MovesAtComplete(player, opponent, b, tile, i + 1, j, a);
    }
  }

  /** The tile loop from `tile` on finds what the tile finds, then what the
      loop from the next tile finds. */
  lemma MovesFromStep(player: Cell, opponent: Cell, b: Board, tile: nat, a: Action)
    requires ValidBoard(b) && tile < WIDTH * HEIGHT
    ensures a in MovesFrom(player, opponent, b, tile) <==>
            a in MovesAt(player, opponent, b, tile, 0) || a in MovesFrom(player, opponent, b, tile + 1)
  {
    assert MovesFrom(player, opponent, b, tile)
           == MovesAt(player, opponent, b, tile, 0) + MovesFrom(player, opponent, b, tile + 1);
  }

  /** A move found by the tile loop from `tile` on was found at some tile
      of that range. */
  lemma {:induction false} MovesFromSound(player: Cell, opponent: Cell, b: Board, tile: nat, a: Action)
    requires ValidBoard(b) && tile <= WIDTH * HEIGHT
    requires a in MovesFrom(player, opponent, b, tile)
    ensures exists origin :: tile <= origin < WIDTH * HEIGHT && a in MovesAt(player, opponent, b, origin, 0)
    decreases WIDTH * HEIGHT - tile
  {
    MovesFromStep(player, opponent, b, tile, a);
    if a !in MovesAt(player, opponent, b, tile, 0) {
      MovesFromSound(player, opponent, b, tile + 1, a);
    }
  }

  /** A move found at a tile of the range is found by the tile loop. */
  lemma {:induction false} MovesFromComplete(player: Cell, opponent: Cell, b: Board, tile: nat, origin: int, a: Action)
    requires ValidBoard(b) && tile <= origin < WIDTH * HEIGHT
    requires a in MovesAt(player, opponent, b, origin, 0)
    ensures a in MovesFrom(player, opponent, b, tile)
    decreases WIDTH * HEIGHT - tile
  {
    MovesFromStep(player, opponent, b, tile, a);
    if tile < origin {
      MovesFromComplete(player, opponent, b, tile + 1, origin, a);
    }
  }

  /** The position of a direction in `DIRECTIONS`. */
  function DirectionIndex(d: int): (j: nat)
    requires d in DIRECTIONS
    ensures j < |DIRECTIONS| && DIRECTIONS[j] == d
  {
    if d == NORTH then 0 else if d == NORTHEAST then 1 else if d == EAST then 2
    else if d == SOUTHEAST then 3 else if d == SOUTH then 4 else if d == SOUTHWEST then 5
    else if d == WEST then 6 else 7
  }

  /** Every move reported is a legal move. */
  lemma GetMovesSound(player: Cell, opponent: Cell, b: Board, a: Action)
    requires ValidBoard(b) && opponent != Empty && a in GetMoves(player, opponent, b)
    ensures exists origin, d :: MoveFrom(b, player, opponent, origin, d, Index(a))
  {
    MovesFromSound(player, opponent, b, 0, a);
    var origin :| 0 <= origin < WIDTH * HEIGHT && a in MovesAt(player, opponent, b, origin, 0);
    MovesAtSound(player, opponent, b, origin, 0, a);
    var j :| 0 <= j < |DIRECTIONS| && MoveFrom(b, player, opponent, origin, DIRECTIONS[j], Index(a));
  }

  /** Every legal move is reported. */
  lemma GetMovesComplete(player: Cell, opponent: Cell, b: Board, a: Action, origin: int, d: int)
    requires ValidBoard(b) && opponent != Empty && OnGrid(a)
    requires MoveFrom(b, player, opponent, origin, d, Index(a))
    ensures a in GetMoves(player, opponent, b)
  {
    MovesAtComplete(player, opponent, b, origin, 0, DirectionIndex(d), a);
    MovesFromComplete(player, opponent, b, 0, origin, a);
  }

  /** `(x, y)` is among the moves exactly when it is on the grid and some piece
      of the player flanks a run of opponent pieces ending on that empty cell,
      without any step crossing a board edge. */
  lemma GetMovesSpec(player: Cell, opponent: Cell, b: Board, a: Action)
    requires ValidBoard(b) && opponent != Empty
    ensures a in GetMoves(player, opponent, b) <==>
            OnGrid(a) && exists origin, d :: MoveFrom(b, player, opponent, origin, d, Index(a))
  {
    if a in GetMoves(player, opponent, b) {
      GetMovesSound(player, opponent, b, a);
    }
    if OnGrid(a) && exists origin, d :: MoveFrom(b, player, opponent, origin, d, Index(a)) {
      var origin, d :| MoveFrom(b, player, opponent, origin, d, Index(a));
      GetMovesComplete(player, opponent, b, a, origin, d);
    }
  }

  /** A player with no piece on the board has no moves. */
  lemma NoPiecesNoMoves(player: Cell, opponent: Cell, b: Board)
    requires ValidBoard(b) && opponent != Empty
    requires forall t :: 0 <= t < |b| ==> b[t] != player
    ensures GetMoves(player, opponent, b) == []
  {
    if GetMoves(player, opponent, b) != [] {
      var a := GetMoves(player, opponent, b)[0];
      GetMovesSpec(player, opponent, b, a);
    }
  }

  /** Where a reported move was found: the origin tile and the position of
      the direction in `DIRECTIONS`. */
  datatype Source = Source(origin: int, dir: int)

  /** The order in which the two loops of `get_moves` visit sources: by tile,
      then by direction. */
  predicate Before(x: Source, y: Source) {
    x.origin < y.origin || (x.origin == y.origin && x.dir < y.dir)
  }

  /** Source `s` finds the move `a`. */
  ghost predicate Finds(player: Cell, opponent: Cell, b: Board, s: Source, a: Action) {
    0 <= s.dir < |DIRECTIONS| && OnGrid(a) && MoveFrom(b, player, opponent, s.origin, DIRECTIONS[s.dir], Index(a))
  }

  /** `src` explains `r` entry by entry, and its sources strictly increase in
      loop order. */
  ghost predicate Traced(player: Cell, opponent: Cell, b: Board, r: seq<Action>, src: seq<Source>) {
    && |src| == |r|
    && (forall k :: 0 <= k < |r| ==> Finds(player, opponent, b, src[k], r[k]))
    && (forall k, l :: 0 <= k < l < |src| ==> Before(src[k], src[l]))
  }

  /** `src` names every origin tile and direction that finds a move. */
  ghost predicate Complete(player: Cell, opponent: Cell, b: Board, src: seq<Source>) {
    forall t, j, e :: 0 <= j < |DIRECTIONS| && MoveFrom(b, player, opponent, t, DIRECTIONS[j], e) ==>
      Source(t, j) in src
  }

  /** A scan from a given origin and direction ends on at most one empty
      cell. */
  lemma {:induction false} RayUnique(b: Board, opponent: Cell, t: int, d: int, e1: int, e2: int)
    requires opponent != Empty
    requires Ray(b, opponent, t, d, e1) && OnBoard(e1) && b[e1] == Empty
    requires Ray(b, opponent, t, d, e2) && OnBoard(e2) && b[e2] == Empty
    ensures e1 == e2
    decreases Span(t, d)
  {
    StepShrinksSpan(t, d);
    if t + d != e1 && t + d != e2 {
      RayUnique(b, opponent, t + d, d, e1, e2);
    }
  }

  /** One origin and one direction find at most one move. */
  lemma MoveFromUnique(b: Board, player: Cell, opponent: Cell, origin: int, d: int, e1: int, e2: int)
    requires opponent != Empty
    requires MoveFrom(b, player, opponent, origin, d, e1) && MoveFrom(b, player, opponent, origin, d, e2)
    ensures e1 == e2
  {
    RayUnique(b, opponent, origin + d, d, e1, e2);
  }

  /** A legal move from `tile` in direction `d` is exactly what that
      iteration of the direction loop yields. */
  lemma MoveAtYields(player: Cell, opponent: Cell, b: Board, tile: int, d: int, e: int)
    requires ValidBoard(b) && OnBoard(tile) && d in DIRECTIONS && opponent != Empty
    requires MoveFrom(b, player, opponent, tile, d, e)
    ensures MoveAt(player, opponent, b, tile, d) == [ActionAt(e)]
  {
    ActionAtRoundTrip(e);
    MoveAtSpec(player, opponent, b, tile, d, ActionAt(e));
  }

  /** The two nested loops of `get_moves` over an abstract loop body `f`,
      which maps an origin tile and a direction index to what that iteration
      yields: `ListAt` runs the directions of tile `t` from index `i` on, and
      `ListFrom` runs the tiles from `t` on. The bounds are written as the
      literals 8 (`len(DIRECTIONS)`) and 64 (`WIDTH * HEIGHT`), which keeps
      the solver from unrolling these recursions past them. */
  function ListAt(f: (int, int) -> seq<Action>, t: int, i: nat): seq<Action>
    decreases 8 - i
  {
    if i >= 8 then [] else f(t, i) + ListAt(f, t, i + 1)
  }

  function ListFrom(f: (int, int) -> seq<Action>, t: nat): seq<Action>
    decreases 64 - t
  {
    if t >= 64 then [] else ListAt(f, t, 0) + ListFrom(f, t + 1)
  }

  /** The iterations of the direction loop at tile `t`, from direction index
      `i` on, at which `f` yields something. */
  ghost function SourcesAt(f: (int, int) -> seq<Action>, t: int, i: nat): (src: seq<Source>)
    ensures forall k :: 0 <= k < |src| ==> src[k].origin == t && i <= src[k].dir < 8
    decreases 8 - i
  {
    if i >= 8 then []
    else
      var rest := SourcesAt(f, t, i + 1);
      if |f(t, i)| == 0 then rest
      else
        var src := [Source(t, i)] + rest;
        assert forall k :: 1 <= k < |src| ==> src[k] == rest[k - 1];
        src
  }

  /** The iterations of the tile loop, from tile `t` on, at which `f` yields
      something. */
  ghost function SourcesFrom(f: (int, int) -> seq<Action>, t: nat): (src: seq<Source>)
    ensures forall k :: 0 <= k < |src| ==> t <= src[k].origin < 64 && 0 <= src[k].dir < 8
    decreases 64 - t
  {
    if t >= 64 then []
    else
      var here, rest := SourcesAt(f, t, 0), SourcesFrom(f, t + 1);
      SourcesAppend(here, rest, t);
      here + rest
  }

  /** Every iteration at which `f` yields something is among the sources, at
      the returned position. */
  lemma {:induction false} SourcesAtCover(f: (int, int) -> seq<Action>, t: int, i: nat, j: int) returns (k: nat)
    requires i <= j < 8 && |f(t, j)| != 0
    ensures k < |SourcesAt(f, t, i)| && SourcesAt(f, t, i)[k] == Source(t, j)
    decreases 8 - i
  {
    var rest := SourcesAt(f, t, i + 1);
    if i == j {
      assert SourcesAt(f, t, i) == [Source(t, i)] + rest;
      k := 0;
    } else {
      var k' := SourcesAtCover(f, t, i + 1, j);
      if |f(t, i)| == 0 {
        assert SourcesAt(f, t, i) == rest;
        k := k';
      } else {
        assert SourcesAt(f, t, i) == [Source(t, i)] + rest;
        k := k' + 1;
      }
    }
  }

  lemma {:induction false} SourcesFromCover(f: (int, int) -> seq<Action>, tile: nat, t: int, j: int) returns (k: nat)
    requires tile <= t < 64 && 0 <= j < 8 && |f(t, j)| != 0
    ensures k < |SourcesFrom(f, tile)| && SourcesFrom(f, tile)[k] == Source(t, j)
    decreases 64 - tile
  {
    if tile < t {
      var k' := SourcesFromCover(f, tile + 1, t, j);
      k := |SourcesAt(f, tile, 0)| + k';
    } else {
      k := SourcesAtCover(f, t, 0, j);
    }
  }

  /** `src` names, entry by entry, the iteration of `f` that yielded `r`, in
      strictly increasing loop order. */
  ghost predicate ListedBy(f: (int, int) -> seq<Action>, r: seq<Action>, src: seq<Source>) {
    && |src| == |r|
    && (forall k :: 0 <= k < |r| ==> Yielded(f, src[k], r[k]))
    && (forall k, l :: 0 <= k < l < |src| ==> Before(src[k], src[l]))
  }

  /** Iteration `s` of `f` yields exactly `a`. */
  ghost predicate Yielded(f: (int, int) -> seq<Action>, s: Source, a: Action) {
    |f(s.origin, s.dir)| == 1 && f(s.origin, s.dir)[0] == a
  }

  /** Two listed runs whose sources are in loop order list their
      concatenation. */
  lemma ListedAppend(f: (int, int) -> seq<Action>, r1: seq<Action>, s1: seq<Source>,
                     r2: seq<Action>, s2: seq<Source>)
    requires ListedBy(f, r1, s1) && ListedBy(f, r2, s2)
    requires forall k, l :: 0 <= k < |s1| && 0 <= l < |s2| ==> Before(s1[k], s2[l])
    ensures ListedBy(f, r1 + r2, s1 + s2)
  {
    var r, s := r1 + r2, s1 + s2;
    forall k | 0 <= k < |r|
      ensures Yielded(f, s[k], r[k])
    {
      if k >= |r1| {
        assert s[k] == s2[k - |s1|] && r[k] == r2[k - |r1|];
      }
    }
    forall k, l | 0 <= k < l < |s|
      ensures Before(s[k], s[l])
    {
      if l < |s1| {
      } else if k >= |s1| {
        assert s[k] == s2[k - |s1|] && s[l] == s2[l - |s1|];
      } else {
        assert s[l] == s2[l - |s1|];
      }
    }
  }

  /** With a loop body that yields at most one move per iteration, the
      direction loop yields exactly one entry per source, in order. */
  lemma {:induction false} ListAtListed(f: (int, int) -> seq<Action>, t: int, i: nat)
    requires forall t', j :: |f(t', j)| <= 1
    ensures ListedBy(f, ListAt(f, t, i), SourcesAt(f, t, i))
    decreases 8 - i
  {
    if i < 8 {
      var here, later, rest := f(t, i), ListAt(f, t, i + 1), SourcesAt(f, t, i + 1);
      ListAtListed(f, t, i + 1);
      if |here| == 0 {
        assert ListAt(f, t, i) == later;
      } else {
        assert Yielded(f, Source(t, i), here[0]);
        ListedAppend(f, here, [Source(t, i)], later, rest);
      }
    }
  }

  /** The tile loop yields exactly one entry per source, in tile-major, then
      direction, order. */
  lemma {:induction false} ListFromListed(f: (int, int) -> seq<Action>, tile: nat)
    requires forall t', j :: |f(t', j)| <= 1
    ensures ListedBy(f, ListFrom(f, tile), SourcesFrom(f, tile))
    decreases 64 - tile
  {
    if tile < 64 {
      var here, rest := SourcesAt(f, tile, 0), SourcesFrom(f, tile + 1);
      ListAtListed(f, tile, 0);
      ListFromListed(f, tile + 1);
      SourcesAppend(here, rest, tile);
      ListedAppend(f, ListAt(f, tile, 0), here, ListFrom(f, tile + 1), rest);
    }
  }

  /** Sources of one tile followed by sources of later tiles stay in loop
      order and within the board. */
  lemma SourcesAppend(here: seq<Source>, rest: seq<Source>, tile: int)
    requires 0 <= tile < 64
    requires forall k :: 0 <= k < |here| ==> here[k].origin == tile && 0 <= here[k].dir < 8
    requires forall k :: 0 <= k < |rest| ==> tile + 1 <= rest[k].origin < 64 && 0 <= rest[k].dir < 8
    ensures forall k, l :: 0 <= k < |here| && 0 <= l < |rest| ==> Before(here[k], rest[l])
    ensures forall k :: 0 <= k < |here + rest| ==>
              tile <= (here + rest)[k].origin < 64 && 0 <= (here + rest)[k].dir < 8
  {
    var src := here + rest;
    forall k | 0 <= k < |src|
      ensures tile <= src[k].origin < 64 && 0 <= src[k].dir < 8
    {
      if k >= |here| {
        assert src[k] == rest[k - |here|];
      }
    }
  }

  /** The loop body of `get_moves` as a function of origin tile and direction
      index. */
  function Body(player: Cell, opponent: Cell, b: Board): (int, int) -> seq<Action> {
    (t: int, j: int) =>
      if ValidBoard(b) && OnBoard(t) && 0 <= j < |DIRECTIONS|
      then MoveAt(player, opponent, b, t, DIRECTIONS[j]) else []
  }

  /** The direction loop is `ListAt` run on the loop body. */
  lemma {:induction false} MovesAtIsListAt(player: Cell, opponent: Cell, b: Board, tile: int, i: nat)
    requires ValidBoard(b) && OnBoard(tile) && i <= |DIRECTIONS|
    ensures MovesAt(player, opponent, b, tile, i) == ListAt(Body(player, opponent, b), tile, i)
    decreases |DIRECTIONS| - i
  {
    if i < |DIRECTIONS| {
      MovesAtIsListAt(player, opponent, b, tile, i + 1);
    }
  }

  /** The tile loop is `ListFrom` run on the loop body. */
  lemma {:induction false} MovesFromIsListFrom(player: Cell, opponent: Cell, b: Board, tile: nat)
    requires ValidBoard(b) && tile <= 64
    ensures MovesFrom(player, opponent, b, tile) == ListFrom(Body(player, opponent, b), tile)
    decreases 64 - tile
  {
    if tile < 64 {
      MovesAtIsListAt(player, opponent, b, tile, 0);
      MovesFromIsListFrom(player, opponent, b, tile + 1);
      MovesFromUnfold(player, opponent, b, tile);
    }
  }

  /** One step of each of the two tile loops. */
  lemma MovesFromUnfold(player: Cell, opponent: Cell, b: Board, tile: nat)
    requires ValidBoard(b) && tile < 64
    ensures MovesFrom(player, opponent, b, tile)
            == MovesAt(player, opponent, b, tile, 0) + MovesFrom(player, opponent, b, tile + 1)
    ensures ListFrom(Body(player, opponent, b), tile)
            == ListAt(Body(player, opponent, b), tile, 0) + ListFrom(Body(player, opponent, b), tile + 1)
  {
  }

  /** `get_moves` lists, for every origin tile and direction that finds a
      move, that move, in tile-major, then `DIRECTIONS`, order. A
      coordinate appears once per source that finds it, so duplicates are
      kept; `GetMovesDetermined` shows that this pins the list down. */
  lemma GetMovesOrder(player: Cell, opponent: Cell, b: Board) returns (src: seq<Source>)
    requires ValidBoard(b) && opponent != Empty
    ensures Traced(player, opponent, b, GetMoves(player, opponent, b), src)
    ensures Complete(player, opponent, b, src)
  {
    var f := Body(player, opponent, b);
    var r := GetMoves(player, opponent, b);
    BodyAtMostOne(player, opponent, b);
    MovesFromIsListFrom(player, opponent, b, 0);
    ListFromListed(f, 0);
    src := SourcesFrom(f, 0);
    forall k | 0 <= k < |r|
      ensures Finds(player, opponent, b, src[k], r[k])
    {
      FindsFromBody(player, opponent, b, src[k], r[k]);
    }
    forall t, j, e | 0 <= j < |DIRECTIONS| && MoveFrom(b, player, opponent, t, DIRECTIONS[j], e)
      ensures Source(t, j) in src
    {
      MoveAtYields(player, opponent, b, t, DIRECTIONS[j], e);
      BodyAt(player, opponent, b, t, j);
      var k := SourcesFromCover(f, 0, t, j);
      assert src[k] == Source(t, j);
    }
  }

  /** The loop body at an on-board tile and a direction index of the loop. */
  lemma BodyAt(player: Cell, opponent: Cell, b: Board, t: int, j: int)
    requires ValidBoard(b) && OnBoard(t) && 0 <= j < |DIRECTIONS|
    ensures Body(player, opponent, b)(t, j) == MoveAt(player, opponent, b, t, DIRECTIONS[j])
  {
  }

  /** Each iteration of the loop body yields at most one move. */
  lemma BodyAtMostOne(player: Cell, opponent: Cell, b: Board)
    ensures forall t, j :: |Body(player, opponent, b)(t, j)| <= 1
  {
  }

  /** An iteration of the loop body that yields `a` finds `a`. */
  lemma FindsFromBody(player: Cell, opponent: Cell, b: Board, s: Source, a: Action)
    requires ValidBoard(b) && opponent != Empty
    requires OnBoard(s.origin) && 0 <= s.dir < |DIRECTIONS|
    requires Yielded(Body(player, opponent, b), s, a)
    ensures Finds(player, opponent, b, s, a)
  {
    BodyAt(player, opponent, b, s.origin, s.dir);
    assert MoveAt(player, opponent, b, s.origin, DIRECTIONS[s.dir]) == [a];
    MoveAtSpec(player, opponent, b, s.origin, DIRECTIONS[s.dir], a);
  }

  /** Two lists of sources, each strictly increasing in loop order, that hold
      the same sources are the same list. */
  lemma {:induction false} SortedUnique(s1: seq<Source>, s2: seq<Source>)
    requires forall k, l :: 0 <= k < l < |s1| ==> Before(s1[k], s1[l])
    requires forall k, l :: 0 <= k < l < |s2| ==> Before(s2[k], s2[l])
    requires forall x :: x in s1 <==> x in s2
    ensures s1 == s2
    decreases |s1|
  {
    SameMembersBothEmpty(s1, s2);
    if |s1| > 0 {
      var x, y := s1[0], s2[0];
      SortedHead(s1);
      SortedHead(s2);
      assert x in s2 && y in s1;
      assert x == y;
      var t1, t2 := s1[1..], s2[1..];
      forall z
        ensures z in t1 <==> z in t2
      {
        if z in t1 {
          var n :| 0 <= n < |t1| && t1[n] == z;
          assert s1[n + 1] == z && Before(x, z);
          assert z in s1;
          var m :| 0 <= m < |s2| && s2[m] == z;
          assert m != 0;
          assert t2[m - 1] == z;
        }
        if z in t2 {
          var m :| 0 <= m < |t2| && t2[m] == z;
          assert s2[m + 1] == z && Before(y, z);
          assert z in s2;
          var n :| 0 <= n < |s1| && s1[n] == z;
          assert n != 0;
          assert t1[n - 1] == z;
        }
      }
      SortedUnique(t1, t2);
      assert s1 == [x] + t1 && s2 == [y] + t2;
    }
  }

  /** Every other entry of a list increasing in loop order comes after its
      head. */
  lemma SortedHead(s: seq<Source>)
    requires |s| > 0
    requires forall k, l :: 0 <= k < l < |s| ==> Before(s[k], s[l])
    ensures forall z :: z in s ==> z == s[0] || Before(s[0], z)
  {
    forall z | z in s
      ensures z == s[0] || Before(s[0], z)
    {
      var k :| 0 <= k < |s| && s[k] == z;
      if k > 0 {
        assert Before(s[0], s[k]);
      }
    }
  }

  /** Lists with the same members are both empty or both not. */
  lemma SameMembersBothEmpty(s1: seq<Source>, s2: seq<Source>)
    requires forall x :: x in s1 <==> x in s2
    ensures |s1| == 0 <==> |s2| == 0
  {
    if |s1| > 0 {
      assert s1[0] in s2;
    }
    if |s2| > 0 {
      assert s2[0] in s1;
    }
  }

  /** `get_moves` is the only list that records, in tile-major, then
      `DIRECTIONS`, order, one move for every origin tile and direction that
      finds one: the order and the multiplicity of its entries, duplicates
      included, are fixed by the board. */
  lemma GetMovesDetermined(player: Cell, opponent: Cell, b: Board, r: seq<Action>, src: seq<Source>)
    requires ValidBoard(b) && opponent != Empty
    requires Traced(player, opponent, b, r, src) && Complete(player, opponent, b, src)
    ensures r == GetMoves(player, opponent, b)
  {
    var r0 := GetMoves(player, opponent, b);
    var src0 := GetMovesOrder(player, opponent, b);
    TracedWithin(player, opponent, b, r, src, src0);
    TracedWithin(player, opponent, b, r0, src0, src);
    SortedUnique(src, src0);
    forall k | 0 <= k < |r|
      ensures r[k] == r0[k]
    {
      SameSourceSameMove(player, opponent, b, src[k], r[k], r0[k]);
    }
  }

  /** The sources of a traced list all lie in any complete list of sources. */
  lemma TracedWithin(player: Cell, opponent: Cell, b: Board, r: seq<Action>, src: seq<Source>, all: seq<Source>)
    requires Traced(player, opponent, b, r, src) && Complete(player, opponent, b, all)
    ensures forall x :: x in src ==> x in all
  {
    forall x | x in src
      ensures x in all
    {
      var k :| 0 <= k < |src| && src[k] == x;
      assert Finds(player, opponent, b, src[k], r[k]);
    }
  }

  /** One source finds one move. */
  lemma SameSourceSameMove(player: Cell, opponent: Cell, b: Board, s: Source, a1: Action, a2: Action)
    requires opponent != Empty
    requires Finds(player, opponent, b, s, a1) && Finds(player, opponent, b, s, a2)
    ensures a1 == a2
  {
    MoveFromUnique(b, player, opponent, s.origin, DIRECTIONS[s.dir], Index(a1), Index(a2));
    IndexRoundTrip(a1);
    IndexRoundTrip(a2);
  }
}
