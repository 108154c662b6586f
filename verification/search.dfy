/** Depth-limited, fail-hard alpha-beta search as `alpha_beta` writes it, and
    a pruning-free minimax over the same tree that it is proved against. Ply
    parity decides the side: odd depths minimise, even depths maximise. A
    node is a leaf when its depth exceeds the limit or its mover has no move;
    a leaf is scored by `evaluation` from the side of the opponent of its
    mover, that is, the side that has just moved. */
module Search {
  import opened Settings
  import opened GameState
  import opened Moves
  import opened Transition
  import opened Scores
  import opened Evaluation

  /** `is_min`: odd depths are minimising plies. */
  predicate IsMin(depth: int) {
    depth % 2 == 1
  }

  /** Plies alternate between minimising and maximising, and the root ply is
      a maximising one. */
  lemma IsMinAlternates(depth: int)
    ensures IsMin(depth + 1) <==> !IsMin(depth)
    ensures !IsMin(0)
  {
  }

  /** `is_leaf`: the depth limit has been passed. */
  predicate IsLeaf(depth: int, maxDepth: int) {
    depth > maxDepth
  }

  /** The plies left before the depth limit; it falls by one per recursion. */
  function Measure(depth: int, maxDepth: int): nat {
    if depth > maxDepth then 0 else maxDepth - depth + 1
  }

  predicate Terminal(s: State, depth: int, maxDepth: int)
    requires ValidBoard(s.board)
  {
    depth > maxDepth || |Actions(s)| == 0
  }

  predicate AllOnGrid(acts: seq<Action>) {
    forall a :: a in acts ==> OnGrid(a)
  }

  /** The leaf score: the evaluation for the side that has just moved. */
  function LeafScore(s: State): Score
    requires ValidBoard(s.board)
  {
    Fin(Evaluate(s, Opponent(s.player)))
  }

  /** `alpha_beta(current_state, depth, max_depth, alpha, beta)`. A leaf
      returns its evaluation whatever the window; an inner node with
      alpha <= beta returns a value inside [alpha, beta]. */
  function AlphaBeta(s: State, depth: int, maxDepth: int, alpha: Score, beta: Score): (r: Score)
    requires ValidBoard(s.board)
    ensures Terminal(s, depth, maxDepth) ==> r == LeafScore(s)
    ensures !Terminal(s, depth, maxDepth) && Le(alpha, beta) ==> Le(alpha, r) && Le(r, beta)
    decreases Measure(depth, maxDepth), 1, 0
  {
    var acts := Actions(s);
    if depth > maxDepth || |acts| == 0 then LeafScore(s)
    else AbLoop(s, acts, 0, depth, maxDepth, alpha, beta, if IsMin(depth) then beta else alpha)
  }

  /** The `for action in actions` loop of `alpha_beta` from index `i`, with
      `best` the running `best_score`. A minimising ply keeps its result in
      [alpha, best]; a maximising ply keeps it in [best, beta]. */
  function AbLoop(s: State, acts: seq<Action>, i: nat, depth: int, maxDepth: int,
                  alpha: Score, beta: Score, best: Score): (r: Score)
    requires ValidBoard(s.board) && AllOnGrid(acts) && i <= |acts| && depth <= maxDepth
    ensures IsMin(depth) && Le(alpha, best) ==> Le(alpha, r) && Le(r, best)
    ensures !IsMin(depth) && Le(best, beta) ==> Le(best, r) && Le(r, beta)
    decreases Measure(depth, maxDepth), 0, |acts| - i
  {
    if i == |acts| then best
    else
      var next := NextState(s, acts[i]);
      if IsMin(depth) then
        var score := AlphaBeta(next, depth + 1, maxDepth, alpha, best);
        if Le(score, alpha) then alpha
        else AbLoop(s, acts, i + 1, depth, maxDepth, alpha, beta, if Lt(score, best) then score else best)
      else
        var score := AlphaBeta(next, depth + 1, maxDepth, best, beta);
        if Le(beta, score) then beta
        else AbLoop(s, acts, i + 1, depth, maxDepth, alpha, beta, if Lt(best, score) then score else best)
  }

  /** The reference: plain minimax over the same tree, leaves and ply parity,
      with no window and no pruning. */
  function Minimax(s: State, depth: int, maxDepth: int): Score
    requires ValidBoard(s.board)
    decreases Measure(depth, maxDepth), 1, 0
  {
    var acts := Actions(s);
    if depth > maxDepth || |acts| == 0 then LeafScore(s)
    else MinimaxLoop(s, acts, 0, depth, maxDepth, if IsMin(depth) then PosInf else NegInf)
  }

  /** Folds the children's minimax values from index `i` into `acc` with
      `Min` on a minimising ply and `Max` on a maximising one. */
  function MinimaxLoop(s: State, acts: seq<Action>, i: nat, depth: int, maxDepth: int, acc: Score): Score
    requires ValidBoard(s.board) && AllOnGrid(acts) && i <= |acts| && depth <= maxDepth
    decreases Measure(depth, maxDepth), 0, |acts| - i
  {
    if i == |acts| then acc
    else
      var v := Minimax(NextState(s, acts[i]), depth + 1, maxDepth);
      MinimaxLoop(s, acts, i + 1, depth, maxDepth, if IsMin(depth) then Min(acc, v) else Max(acc, v))
  }

  /** The fold never rises above (minimising) or falls below (maximising)
      its starting accumulator. */
  lemma {:induction false} MinimaxLoopBound(s: State, acts: seq<Action>, i: nat, depth: int, maxDepth: int, acc: Score)
    requires ValidBoard(s.board) && AllOnGrid(acts) && i <= |acts| && depth <= maxDepth
    ensures IsMin(depth) ==> Le(MinimaxLoop(s, acts, i, depth, maxDepth, acc), acc)
    ensures !IsMin(depth) ==> Le(acc, MinimaxLoop(s, acts, i, depth, maxDepth, acc))
    decreases |acts| - i
  {
    if i < |acts| {
      var v := Minimax(NextState(s, acts[i]), depth + 1, maxDepth);
      MinimaxLoopBound(s, acts, i + 1, depth, maxDepth, if IsMin(depth) then Min(acc, v) else Max(acc, v));
      LeTotalOrder();
    }
  }

  /** Starting the fold from `Min(x, acc)` (or `Max(x, acc)`) is the same as
      folding from `acc` and combining with `x` afterwards. */
  lemma {:induction false} MinimaxLoopShift(s: State, acts: seq<Action>, i: nat, depth: int, maxDepth: int, x: Score, acc: Score)
    requires ValidBoard(s.board) && AllOnGrid(acts) && i <= |acts| && depth <= maxDepth
    ensures IsMin(depth) ==>
              MinimaxLoop(s, acts, i, depth, maxDepth, Min(x, acc)) == Min(x, MinimaxLoop(s, acts, i, depth, maxDepth, acc))
    ensures !IsMin(depth) ==>
              MinimaxLoop(s, acts, i, depth, maxDepth, Max(x, acc)) == Max(x, MinimaxLoop(s, acts, i, depth, maxDepth, acc))
    decreases |acts| - i
  {
    if i < |acts| {
      var v := Minimax(NextState(s, acts[i]), depth + 1, maxDepth);
      if IsMin(depth) {
        MinAssoc(x, acc, v);
        MinimaxLoopShift(s, acts, i + 1, depth, maxDepth, x, Min(acc, v));
      } else {
        MaxAssoc(x, acc, v);
        MinimaxLoopShift(s, acts, i + 1, depth, maxDepth, x, Max(acc, v));
      }
    }
  }

  /** A minimising loop whose `best` has fallen to `alpha` returns `alpha`:
      every later child either fails low or leaves `best` where it is. */
  lemma {:induction false} AbLoopPinnedMin(s: State, acts: seq<Action>, i: nat, depth: int, maxDepth: int,
                                           alpha: Score, beta: Score)
    requires ValidBoard(s.board) && AllOnGrid(acts) && i <= |acts| && depth <= maxDepth && IsMin(depth)
    ensures AbLoop(s, acts, i, depth, maxDepth, alpha, beta, alpha) == alpha
    decreases |acts| - i
  {
    if i < |acts| {
      var score := AlphaBeta(NextState(s, acts[i]), depth + 1, maxDepth, alpha, alpha);
      if !Le(score, alpha) {
        assert !Lt(score, alpha);
        AbLoopPinnedMin(s, acts, i + 1, depth, maxDepth, alpha, beta);
      }
    }
  }

  /** A maximising loop whose `best` has risen to `beta` returns `beta`. */
  lemma {:induction false} AbLoopPinnedMax(s: State, acts: seq<Action>, i: nat, depth: int, maxDepth: int,
                                           alpha: Score, beta: Score)
    requires ValidBoard(s.board) && AllOnGrid(acts) && i <= |acts| && depth <= maxDepth && !IsMin(depth)
    ensures AbLoop(s, acts, i, depth, maxDepth, alpha, beta, beta) == beta
    decreases |acts| - i
  {
    if i < |acts| {
      var score := AlphaBeta(NextState(s, acts[i]), depth + 1, maxDepth, beta, beta);
      if !Le(beta, score) {
        assert !Lt(beta, score);
        AbLoopPinnedMax(s, acts, i + 1, depth, maxDepth, alpha, beta);
      }
    }
  }

  /** Alpha-beta is exact against minimax: at a leaf both give the
      evaluation, and at an inner node with alpha <= beta alpha-beta returns
      the minimax value clamped into [alpha, beta]. */
  lemma {:induction false} AlphaBetaExact(s: State, depth: int, maxDepth: int, alpha: Score, beta: Score)
    requires ValidBoard(s.board) && Le(alpha, beta)
    ensures Terminal(s, depth, maxDepth) ==> AlphaBeta(s, depth, maxDepth, alpha, beta) == Minimax(s, depth, maxDepth)
    ensures !Terminal(s, depth, maxDepth) ==>
              AlphaBeta(s, depth, maxDepth, alpha, beta) == Clamp(Minimax(s, depth, maxDepth), alpha, beta)
    ensures Clamp(AlphaBeta(s, depth, maxDepth, alpha, beta), alpha, beta) == Clamp(Minimax(s, depth, maxDepth), alpha, beta)
    decreases Measure(depth, maxDepth), 1, 0
  {
    var acts := Actions(s);
    var mm := Minimax(s, depth, maxDepth);
    if !Terminal(s, depth, maxDepth) {
      if IsMin(depth) {
        AbLoopExact(s, acts, 0, depth, maxDepth, alpha, beta, beta);
        MinimaxLoopShift(s, acts, 0, depth, maxDepth, beta, PosInf);
        assert Min(beta, PosInf) == beta;
      } else {
        AbLoopExact(s, acts, 0, depth, maxDepth, alpha, beta, alpha);
        MinimaxLoopShift(s, acts, 0, depth, maxDepth, alpha, NegInf);
        assert Max(alpha, NegInf) == alpha;
        ClampInWindow(mm, alpha, beta);
      }
      ClampInWindow(Clamp(mm, alpha, beta), alpha, beta);
      ClampInWindow(mm, alpha, beta);
    }
  }

  /** The loop invariant behind `AlphaBetaExact`: from index `i` with running
      `best`, a minimising loop returns `Max(alpha, fold)` and a maximising
      loop returns `Min(beta, fold)`, where `fold` is the minimax fold of the
      remaining children started from `best`. */
  lemma {:induction false} AbLoopExact(s: State, acts: seq<Action>, i: nat, depth: int, maxDepth: int,
                                       alpha: Score, beta: Score, best: Score)
    requires ValidBoard(s.board) && AllOnGrid(acts) && i <= |acts| && depth <= maxDepth
    requires IsMin(depth) ==> Le(alpha, best)
    requires !IsMin(depth) ==> Le(best, beta)
    ensures IsMin(depth) ==>
              AbLoop(s, acts, i, depth, maxDepth, alpha, beta, best) == Max(alpha, MinimaxLoop(s, acts, i, depth, maxDepth, best))
    ensures !IsMin(depth) ==>
              AbLoop(s, acts, i, depth, maxDepth, alpha, beta, best) == Min(beta, MinimaxLoop(s, acts, i, depth, maxDepth, best))
    decreases Measure(depth, maxDepth), 0, |acts| - i
  {
    LeTotalOrder();
    if i < |acts| {
      var next := NextState(s, acts[i]);
      var v := Minimax(next, depth + 1, maxDepth);
      if IsMin(depth) {
        MinimaxLoopBound(s, acts, i, depth, maxDepth, best);
        if best == alpha {
          AbLoopPinnedMin(s, acts, i, depth, maxDepth, alpha, beta);
        } else {
          var score := AlphaBeta(next, depth + 1, maxDepth, alpha, best);
          AlphaBetaExact(next, depth + 1, maxDepth, alpha, best);
          SameClamp(score, v, alpha, best);
          MinimaxLoopBound(s, acts, i + 1, depth, maxDepth, Min(best, v));
          if !Le(score, alpha) {
            AbLoopExact(s, acts, i + 1, depth, maxDepth, alpha, beta, if Lt(score, best) then score else best);
          }
        }
      } else {
        MinimaxLoopBound(s, acts, i, depth, maxDepth, best);
        if best == beta {
          AbLoopPinnedMax(s, acts, i, depth, maxDepth, alpha, beta);
        } else {
          var score := AlphaBeta(next, depth + 1, maxDepth, best, beta);
          AlphaBetaExact(next, depth + 1, maxDepth, best, beta);
          SameClamp(score, v, best, beta);
          MinimaxLoopBound(s, acts, i + 1, depth, maxDepth, Max(best, v));
          if !Le(beta, score) {
            AbLoopExact(s, acts, i + 1, depth, maxDepth, alpha, beta, if Lt(best, score) then score else best);
          }
        }
      }
    }
  }

  /** Called with the infinite window, as the engine's root search is,
      alpha-beta returns the minimax value itself. */
  lemma AlphaBetaFullWindow(s: State, depth: int, maxDepth: int)
    requires ValidBoard(s.board)
    ensures AlphaBeta(s, depth, maxDepth, NegInf, PosInf) == Minimax(s, depth, maxDepth)
  {
    AlphaBetaExact(s, depth, maxDepth, NegInf, PosInf);
  }
}
