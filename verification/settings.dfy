/** Board geometry and small helpers shared by the engine: the eight compass
    offsets of a flat, row-major 8x8 board, the edge predicate that keeps line
    scans from wrapping into the next row, the label-level opponent function
    and the `chunks` splitter. */
module Settings {

  /** The piece-state labels the UI layer hands to the engine. */
  datatype Label = BoardLabel | WhiteLabel | BlackLabel | MoveLabel

  /** A call that either returns a value or raises `ValueError`. */
  datatype Raising<T> = Returned(value: T) | ValueError

  const WIDTH: int := 8
  const HEIGHT: int := 8

  const NORTH: int := -HEIGHT
  const NORTHEAST: int := -HEIGHT + 1
  const EAST: int := 1
  const SOUTHEAST: int := HEIGHT + 1
  const SOUTH: int := HEIGHT
  const SOUTHWEST: int := HEIGHT - 1
  const WEST: int := -1
  const NORTHWEST: int := -HEIGHT - 1

  const DIRECTIONS: seq<int> := [NORTH, NORTHEAST, EAST, SOUTHEAST, SOUTH, SOUTHWEST, WEST, NORTHWEST]

  predicate OnBoard(tile: int) {
    0 <= tile < WIDTH * HEIGHT
  }

  /** Column and row of a tile. Dafny's `%` and `/` agree with Python's for the
      positive divisor used here. */
  function Col(tile: int): int { tile % WIDTH }
  function Row(tile: int): int { tile / WIDTH }

  /** True when a single step from `tile` in `direction` would leave the board. */
  predicate OutsideBoard(tile: int, direction: int) {
    var tileTop := 0 <= tile <= WIDTH - 1;
    var tileBot := (WIDTH - 1) * WIDTH <= tile <= WIDTH * WIDTH - 1;
    var tileRight := tile % WIDTH == WIDTH - 1;
    var tileLeft := tile % WIDTH == 0;
    || (direction in [NORTH, NORTHEAST, NORTHWEST] && tileTop)
    || (direction in [SOUTH, SOUTHWEST, SOUTHEAST] && tileBot)
    || (direction in [NORTHEAST, EAST, SOUTHEAST] && tileRight)
    || (direction in [NORTHWEST, WEST, SOUTHWEST] && tileLeft)
  }

  /** The flat offset of the grid vector (dx, dy). */
  function Offset(dx: int, dy: int): int { dx + WIDTH * dy }

  /** Vertical and horizontal components of an offset in [-9, 9], recovered
      arithmetically (independently of how `OutsideBoard` groups directions). */
  function Dy(d: int): int { (d + WIDTH + 1) / WIDTH - 1 }
  function Dx(d: int): int { d - WIDTH * Dy(d) }

  predicate IsUnit(k: int) { -1 <= k <= 1 }

  /** The eight offsets are distinct, non-zero, each is the flat form of a
      unit grid vector, and every non-zero unit grid vector is among them. */
  lemma DirectionsWellFormed()
    ensures |DIRECTIONS| == 8
    ensures forall i, j :: 0 <= i < j < |DIRECTIONS| ==> DIRECTIONS[i] != DIRECTIONS[j]
    ensures forall d :: d in DIRECTIONS ==>
              d != 0 && IsUnit(Dx(d)) && IsUnit(Dy(d)) && d == Offset(Dx(d), Dy(d))
    ensures forall dx, dy :: IsUnit(dx) && IsUnit(dy) && (dx != 0 || dy != 0) ==>
              Offset(dx, dy) in DIRECTIONS
  {
  }

  /** `OutsideBoard` agrees with grid geometry: a step is refused exactly when
      the unit vector would move the column or the row off the 8x8 grid, and an
      allowed step lands on the board in the neighbouring column and row, so
      no scan ever wraps into another row. */
  lemma StepGeometry(tile: int, d: int)
    requires OnBoard(tile) && d in DIRECTIONS
    ensures OutsideBoard(tile, d) <==>
              !(0 <= Col(tile) + Dx(d) < WIDTH && 0 <= Row(tile) + Dy(d) < HEIGHT)
    ensures !OutsideBoard(tile, d) ==>
              && OnBoard(tile + d)
              && Col(tile + d) == Col(tile) + Dx(d)
              && Row(tile + d) == Row(tile) + Dy(d)
  {
    var r, c := Row(tile), Col(tile);
    assert tile == WIDTH * r + c && 0 <= c < WIDTH && 0 <= r < HEIGHT;
    if !OutsideBoard(tile, d) {
      assert tile + d == WIDTH * (r + Dy(d)) + (c + Dx(d));
    }
  }

  /** A measure that strictly falls along every allowed step of a scan. */
  function Span(tile: int, d: int): nat {
    if !OnBoard(tile) then 0 else if d > 0 then WIDTH * HEIGHT - tile else tile + 1
  }

  lemma StepShrinksSpan(tile: int, d: int)
    requires OnBoard(tile) && d in DIRECTIONS && !OutsideBoard(tile, d)
    ensures OnBoard(tile + d) && Span(tile + d, d) < Span(tile, d)
  {
    StepGeometry(tile, d);
  }

  /** The label-level opponent: WHITE and BLACK swap, anything else raises. */
  function GetOpponent(player: Label): (r: Raising<Label>)
    ensures r.Returned? <==> player == WhiteLabel || player == BlackLabel
    ensures r.Returned? ==> r.value != player && r.value in {WhiteLabel, BlackLabel}
  {
    if player == WhiteLabel then Returned(BlackLabel)
    else if player == BlackLabel then Returned(WhiteLabel)
    else ValueError
  }

  lemma GetOpponentInvolution(player: Label)
    requires player == WhiteLabel || player == BlackLabel
    ensures GetOpponent(GetOpponent(player).value) == Returned(player)
  {
  }

  function Concat<T>(xss: seq<seq<T>>): seq<T> {
    if |xss| == 0 then [] else xss[0] + Concat(xss[1..])
  }

  /** Successive slices `l[i:i+n]` for `i` in `range(0, len(l), n)`. A negative
      step gives an empty range; a zero step is refused by `range`. */
  function Chunks<T>(l: seq<T>, n: int): (r: seq<seq<T>>)
    requires n != 0
    ensures n < 0 ==> r == []
    ensures n > 0 ==> Concat(r) == l
    ensures n > 0 ==> (|r| - 1) * n < |l| <= |r| * n
    ensures forall i :: 0 <= i < |r| - 1 ==> |r[i]| == n
    ensures |r| > 0 ==> 0 < |r[|r| - 1]| <= n
    decreases |l|
  {
    if n < 0 || |l| == 0 then []
    else if |l| <= n then
      assert Concat([l]) == l + Concat([]);
      assert (1 - 1) * n == 0 && 1 * n == n;
      [l]
    else
      var rest := Chunks(l[n..], n);
      var c := |rest|;
      assert (c - 1) * n < |l| - n <= c * n;
      assert (c + 1 - 1) * n == c * n && (c + 1) * n == c * n + n && (c - 1) * n == c * n - n;
      assert |[l[..n]] + rest| == c + 1;
      assert Concat([l[..n]] + rest) == l[..n] + Concat(rest);
      assert l[..n] + l[n..] == l;
      [l[..n]] + rest
  }

  /** There are ceil(len(l) / n) chunks. */
  lemma ChunksCount<T>(l: seq<T>, n: int)
    requires n > 0
    ensures |Chunks(l, n)| == (|l| + n - 1) / n
  {
    var c := |Chunks(l, n)|;
    assert (c - 1) * n + n == c * n;
    DivUnique(|l| + n - 1, n, c);
  }

  /** Integer division is pinned down by the bracketing multiples. */
  lemma DivUnique(x: int, n: int, q: int)
    requires 0 < n && q * n <= x < q * n + n
    ensures x / n == q && x % n == x - q * n
  {
    var p, m := x / n, x % n;
    assert x == p * n + m && 0 <= m < n;
    if p < q {
      assert (p + 1) * n == p * n + n;
      MulMono(p + 1, q, n);
    } else if p > q {
      assert (q + 1) * n == q * n + n;
      MulMono(q + 1, p, n);
    }
  }

  lemma MulMono(a: int, b: int, n: int)
    requires a <= b && 0 < n
    ensures a * n <= b * n
  {
    assert b * n == a * n + (b - a) * n;
  }
}
