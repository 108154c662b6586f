/** The coordinator side of `pvsplit` without its message transport. The
    first action is searched by a recursive `pvsplit` call to seed the window;
    every other sibling then becomes a task for a worker rank chosen round
    robin, all tasks carrying the same, frozen window; the replies are filed
    by their `order` in a task table; and the table is folded, in order, into
    `(alpha, best action)`. With a single process the siblings are searched
    one after another by `alpha_beta` under a live window instead.

    Workers are not part of the engine's code: a worker is a function from a
    task to the score it replies with. */
module PvSplit {
  import opened Optional
  import opened GameState
  import opened Moves
  import opened Transition
  import opened Scores
  import opened Search

  /** The data sent to a worker for one sibling. */
  datatype SearchTask = SearchTask(state: State, depth: int, maxDepth: int, alpha: Score, beta: Score, order: nat)

  /** One row of the coordinator's task table: the worker rank, the task, the
      sibling action, and the score once the reply has been filed. */
  datatype TaskEntry = TaskEntry(rank: int, task: SearchTask, action: Action, score: Option<Score>)

  /** A worker's reply `(order, score)`. */
  datatype Reply = Reply(order: int, score: Score)

  /** What `pvsplit` returns, or the exception it raises: indexing the first
      action of an empty list at the root, filing a reply under an order with
      no row (a missing key), or folding a row whose score is still `None`
      (a comparison of `None` with a score). */
  datatype PvOutcome =
    | Chosen(score: Score, action: Action)
    | NoLegalMove
    | UnknownOrder(order: int)
    | Unanswered(row: nat)

  /** The next worker rank: ranks run 1 .. size - 1 and wrap back to 1; rank 0
      is the coordinator. */
  function NextRank(rank: int, size: int): (r: int)
    ensures 1 < size && 0 <= rank < size ==> 1 <= r < size
  {
    if rank + 1 < size then rank + 1 else 1
  }

  /** The rank of the k-th dispatched task under round robin over the
      workers 1 .. size - 1. */
  function RoundRobin(k: nat, size: int): (rank: int)
    requires size > 1
    ensures 1 <= rank < size
  {
    1 + k % (size - 1)
  }

  /** One step of the rotation moves the k-th task's rank to the (k+1)-th
      task's rank. */
  lemma NextRankRoundRobin(k: nat, size: int)
    requires size > 1
    ensures NextRank(RoundRobin(k, size), size) == RoundRobin(k + 1, size)
  {
    var n := size - 1;
    var q := k / n;
    var r := k % n;
    assert k == q * n + r;
    if r + 1 < n {
      assert q * n <= k + 1 < q * n + n;
      Settings.DivUnique(k + 1, n, q);
      assert (k + 1) % n == r + 1;
    } else {
      assert k + 1 == (q + 1) * n;
      Settings.DivUnique(k + 1, n, q + 1);
      assert (k + 1) % n == 0;
    }
  }

  /** The rank reached from `rank` after `j` steps of the rotation. */
  function RankAfter(rank: int, j: nat, size: int): int
    decreases j
  {
    if j == 0 then rank else RankAfter(NextRank(rank, size), j - 1, size)
  }

  /** Starting from the k-th task's rank, `j` steps of the rotation reach the
      (k+j)-th task's rank, 1 + (k + j) mod (size - 1). */
  lemma {:induction false} RankAfterRoundRobin(k: nat, j: nat, size: int)
    requires size > 1
    ensures RankAfter(RoundRobin(k, size), j, size) == RoundRobin(k + j, size)
    decreases j
  {
    if j > 0 {
      NextRankRoundRobin(k, size);
      RankAfterRoundRobin(k + 1, j - 1, size);
    }
  }

  /** Every position in `children` has a well-formed board. */
  predicate AllValid(children: seq<State>) {
    forall k :: 0 <= k < |children| ==> ValidBoard(children[k].board)
  }

  /** The positions after each action, in action order. */
  function Children(s: State, acts: seq<Action>): (r: seq<State>)
    requires ValidBoard(s.board) && AllOnGrid(acts)
    ensures |r| == |acts| && AllValid(r)
  {
    seq(|acts|, j requires 0 <= j < |acts| => NextState(s, acts[j]))
  }

  /** The dispatch loop from sibling `k` on, with `rank` the rank the next
      task goes to and `children` the siblings' positions. Task `k + j` goes
      `j` rotation steps past `rank`, holds its child one ply deeper, and
      carries the window (alpha, beta) the loop was entered with. */
  function DispatchFrom(children: seq<State>, sibs: seq<Action>, k: nat, rank: int, depth: int, maxDepth: int,
                        alpha: Score, beta: Score, size: int): (t: seq<TaskEntry>)
    requires |children| == |sibs| && k <= |sibs|
    ensures |t| == |sibs| - k
    ensures forall j :: 0 <= j < |t| ==> t[j].rank == RankAfter(rank, j, size)
    ensures forall j :: 0 <= j < |t| ==> t[j].task.alpha == alpha && t[j].task.beta == beta
    ensures forall j :: 0 <= j < |t| ==>
              t[j].task.order == k + j && t[j].action == sibs[k + j] && t[j].score == None
    ensures forall j :: 0 <= j < |t| ==>
              t[j].task.state == children[k + j] && t[j].task.depth == depth + 1
              && t[j].task.maxDepth == maxDepth
    decreases |sibs| - k
  {
    if k == |sibs| then []
    else
      var task := SearchTask(children[k], depth + 1, maxDepth, alpha, beta, k);
      var rest := DispatchFrom(children, sibs, k + 1, NextRank(rank, size), depth, maxDepth, alpha, beta, size);
      [TaskEntry(rank, task, sibs[k], None)] + rest
  }

  /** The multi-process dispatch loop over `actions[1:]`, starting at rank 1:
      sibling `j` goes to rank 1 + j mod (size - 1), and every task carries
      the same window. */
  function Dispatch(s: State, acts: seq<Action>, depth: int, maxDepth: int,
                    alpha: Score, beta: Score, size: int): (t: seq<TaskEntry>)
    requires ValidBoard(s.board) && AllOnGrid(acts) && |acts| >= 1 && size > 1
    ensures |t| == |acts| - 1
    ensures forall j :: 0 <= j < |t| ==> t[j].rank == RoundRobin(j, size)
    ensures forall j :: 0 <= j < |t| ==> t[j].task.alpha == alpha && t[j].task.beta == beta
    ensures forall j :: 0 <= j < |t| ==>
              t[j].task.order == j && t[j].action == acts[j + 1] && t[j].score == None
    ensures forall j :: 0 <= j < |t| ==>
              t[j].task.state == NextState(s, acts[j + 1]) && t[j].task.depth == depth + 1
              && t[j].task.maxDepth == maxDepth
  {
    var sibs := acts[1..];
    assert AllOnGrid(sibs) by { assert forall a :: a in sibs ==> a in acts; }
    var t := DispatchFrom(Children(s, sibs), sibs, 0, 1, depth, maxDepth, alpha, beta, size);
    assert forall j :: 0 <= j < |t| ==> sibs[j] == acts[j + 1];
    assert forall j: nat :: RankAfter(1, j, size) == RoundRobin(j, size) by {
      forall j: nat ensures RankAfter(1, j, size) == RoundRobin(j, size) {
        RankAfterRoundRobin(0, j, size);
      }
    }
    t
  }

  /** With four processes and seven siblings the tasks go to ranks 1, 2, 3,
      1, 2, 3, 1. */
  lemma RankRotationExample(s: State, acts: seq<Action>, depth: int, maxDepth: int, alpha: Score, beta: Score)
    requires ValidBoard(s.board) && AllOnGrid(acts) && |acts| == 8
    ensures var t := Dispatch(s, acts, depth, maxDepth, alpha, beta, 4);
            [t[0].rank, t[1].rank, t[2].rank, t[3].rank, t[4].rank, t[5].rank, t[6].rank] == [1, 2, 3, 1, 2, 3, 1]
  {
    var t := Dispatch(s, acts, depth, maxDepth, alpha, beta, 4);
    assert t[0].rank == RoundRobin(0, 4) && t[1].rank == RoundRobin(1, 4) && t[2].rank == RoundRobin(2, 4);
    assert t[3].rank == RoundRobin(3, 4) && t[4].rank == RoundRobin(4, 4) && t[5].rank == RoundRobin(5, 4);
    assert t[6].rank == RoundRobin(6, 4);
  }

  /** The replies of `worker`, one per task, in dispatch order. */
  function WorkerReplies(t: seq<TaskEntry>, worker: SearchTask -> Score): (rs: seq<Reply>)
    ensures |rs| == |t|
    ensures forall j :: 0 <= j < |t| ==> rs[j] == Reply(t[j].task.order, worker(t[j].task))
  {
    seq(|t|, j requires 0 <= j < |t| => Reply(t[j].task.order, worker(t[j].task)))
  }

  /** The outcome of filing replies: the filled table, or the first order
      that has no row. */
  datatype Collected = Filled(table: seq<TaskEntry>) | UnknownKey(order: int)

  predicate HasRow(table: seq<TaskEntry>, order: int) {
    0 <= order < |table|
  }

  /** Each order replies at most once. */
  predicate DistinctOrders(replies: seq<Reply>) {
    forall a, b :: 0 <= a < b < |replies| ==> replies[a].order != replies[b].order
  }

  /** The receive loop: each reply, in arrival order, sets the score of the
      row its order names. Filing fails exactly when some reply names an
      order with no row; otherwise only scores change. */
  function Collect(table: seq<TaskEntry>, replies: seq<Reply>): (c: Collected)
    ensures c.UnknownKey? <==> exists k :: 0 <= k < |replies| && !HasRow(table, replies[k].order)
    ensures c.UnknownKey? ==> !HasRow(table, c.order)
    ensures c.Filled? ==> |c.table| == |table|
    ensures c.Filled? ==> forall j :: 0 <= j < |table| ==>
              c.table[j].rank == table[j].rank && c.table[j].task == table[j].task
              && c.table[j].action == table[j].action
    decreases |replies|
  {
    if |replies| == 0 then Filled(table)
    else
      var o := replies[0].order;
      if !HasRow(table, o) then UnknownKey(o)
      else
        var c := Collect(table[o := table[o].(score := Some(replies[0].score))], replies[1..]);
        assert forall k :: 0 <= k < |replies| - 1 ==> replies[1..][k] == replies[k + 1];
        c
  }

  /** When each order replies at most once and every order has a row, row `j`
      ends up holding the score of the reply for order `j`, or keeps its old
      score when no reply names it. */
  lemma {:induction false} CollectSpec(table: seq<TaskEntry>, replies: seq<Reply>)
    requires DistinctOrders(replies)
    requires forall k :: 0 <= k < |replies| ==> HasRow(table, replies[k].order)
    ensures Collect(table, replies).Filled?
    ensures forall j :: 0 <= j < |table| ==>
              (exists k :: 0 <= k < |replies| && replies[k].order == j
                 && Collect(table, replies).table[j] == table[j].(score := Some(replies[k].score)))
              || ((forall k :: 0 <= k < |replies| ==> replies[k].order != j)
                 && Collect(table, replies).table[j] == table[j])
    decreases |replies|
  {
    if |replies| > 0 {
      var o := replies[0].order;
      var table' := table[o := table[o].(score := Some(replies[0].score))];
      var rest := replies[1..];
      assert forall k :: 0 <= k < |rest| ==> rest[k] == replies[k + 1];
      CollectSpec(table', rest);
      var t := Collect(table, replies).table;
      assert t == Collect(table', rest).table;
      forall j | 0 <= j < |table|
        ensures (exists k :: 0 <= k < |replies| && replies[k].order == j
                   && t[j] == table[j].(score := Some(replies[k].score)))
                || ((forall k :: 0 <= k < |replies| ==> replies[k].order != j) && t[j] == table[j])
      {
        if j == o {
          assert forall k :: 0 <= k < |rest| ==> rest[k].order != j;
          assert t[j] == table'[j];
          assert replies[0].order == j && t[j] == table[j].(score := Some(replies[0].score));
        } else if exists k :: 0 <= k < |rest| && rest[k].order == j && t[j] == table'[j].(score := Some(rest[k].score)) {
          var k :| 0 <= k < |rest| && rest[k].order == j && t[j] == table'[j].(score := Some(rest[k].score));
          assert replies[k + 1].order == j && t[j] == table[j].(score := Some(replies[k + 1].score));
        } else {
          assert t[j] == table[j];
        }
      }
    }
  }

  /** Row `j` after filing holds the score of the reply naming `j`, or is
      left as it was when no reply names it. */
  ghost predicate FiledRow(table: seq<TaskEntry>, replies: seq<Reply>, t: seq<TaskEntry>, j: int)
    requires 0 <= j < |table| && |t| == |table|
  {
    (exists k :: 0 <= k < |replies| && replies[k].order == j && t[j] == table[j].(score := Some(replies[k].score)))
    || ((forall k :: 0 <= k < |replies| ==> replies[k].order != j) && t[j] == table[j])
  }

  /** Two filings of the same replies, each order at most once, agree on
      row `j`. */
  lemma FiledRowsAgree(table: seq<TaskEntry>, r1: seq<Reply>, r2: seq<Reply>, t1: seq<TaskEntry>, t2: seq<TaskEntry>,
                       j: int)
    requires DistinctOrders(r2)
    requires forall x :: x in r1 <==> x in r2
    requires 0 <= j < |table| && |t1| == |table| && |t2| == |table|
    requires FiledRow(table, r1, t1, j) && FiledRow(table, r2, t2, j)
    ensures t1[j] == t2[j]
  {
    if exists k :: 0 <= k < |r1| && r1[k].order == j && t1[j] == table[j].(score := Some(r1[k].score)) {
      var k :| 0 <= k < |r1| && r1[k].order == j && t1[j] == table[j].(score := Some(r1[k].score));
      assert r1[k] in r2;
      var k2 :| 0 <= k2 < |r2| && r2[k2] == r1[k];
      assert !(forall m :: 0 <= m < |r2| ==> r2[m].order != j);
      var m :| 0 <= m < |r2| && r2[m].order == j && t2[j] == table[j].(score := Some(r2[m].score));
      assert m == k2;
    } else {
      assert forall k :: 0 <= k < |r1| ==> r1[k].order != j;
      forall m | 0 <= m < |r2| ensures r2[m].order != j {
        assert r2[m] in r1;
      }
    }
  }

  /** Filing does not depend on the order the replies arrive in: two arrival
      sequences holding the same replies, each order at most once, give the
      same table. */
  lemma CollectOrderIndependent(table: seq<TaskEntry>, r1: seq<Reply>, r2: seq<Reply>)
    requires DistinctOrders(r1) && DistinctOrders(r2)
    requires forall x :: x in r1 <==> x in r2
    requires forall k :: 0 <= k < |r1| ==> HasRow(table, r1[k].order)
    ensures Collect(table, r1) == Collect(table, r2)
  {
    assert forall k :: 0 <= k < |r2| ==> HasRow(table, r2[k].order) by {
      forall k | 0 <= k < |r2| ensures HasRow(table, r2[k].order) {
        assert r2[k] in r1;
      }
    }
    CollectSpec(table, r1);
    CollectSpec(table, r2);
    var t1 := Collect(table, r1).table;
    var t2 := Collect(table, r2).table;
    forall j | 0 <= j < |table| ensures t1[j] == t2[j] {
      assert FiledRow(table, r1, t1, j) && FiledRow(table, r2, t2, j);
      FiledRowsAgree(table, r1, r2, t1, t2, j);
    }
  }

  /** The replies of a worker to a dispatched table fill every row with the
      worker's score for that row's task. */
  lemma CollectWorkerReplies(table: seq<TaskEntry>, worker: SearchTask -> Score)
    requires forall j :: 0 <= j < |table| ==> table[j].task.order == j
    ensures Collect(table, WorkerReplies(table, worker)).Filled?
    ensures var t := Collect(table, WorkerReplies(table, worker)).table;
            forall j :: 0 <= j < |table| ==> t[j] == table[j].(score := Some(worker(table[j].task)))
  {
    var rs := WorkerReplies(table, worker);
    CollectSpec(table, rs);
  }

  /** Every row from `i` on has been answered. */
  predicate Answered(t: seq<TaskEntry>, i: nat) {
    forall k :: i <= k < |t| ==> t[k].score.Some?
  }

  /** The fold over the task table in order: the first score strictly above
      beta returns (beta, its action); a score strictly above alpha becomes
      alpha and its action the best one. */
  function Fold(t: seq<TaskEntry>, i: nat, alpha: Score, beta: Score, best: Action): (r: PvOutcome)
    requires i <= |t|
    ensures r.Chosen? || r.Unanswered?
    ensures Answered(t, i) ==> r.Chosen?
    ensures r.Unanswered? ==> i <= r.row < |t| && t[r.row].score.None?
    ensures r.Chosen? && Le(alpha, beta) ==> Le(alpha, r.score) && Le(r.score, beta)
    ensures r.Chosen? ==> r.action == best || exists k :: i <= k < |t| && r.action == t[k].action
    decreases |t| - i
  {
    if i == |t| then Chosen(alpha, best)
    else match t[i].score
      case None => Unanswered(i)
      case Some(score) =>
        if Lt(beta, score) then Chosen(beta, t[i].action)
        else if Lt(alpha, score) then Fold(t, i + 1, score, beta, t[i].action)
        else Fold(t, i + 1, alpha, beta, best)
  }

  /** The score of an answered row. */
  function ScoreAt(t: seq<TaskEntry>, k: nat): Score
    requires k < |t| && t[k].score.Some?
  {
    t[k].score.value
  }

  /** The first row scoring strictly above beta decides the fold. */
  lemma {:induction false} FoldCutoff(t: seq<TaskEntry>, i: nat, alpha: Score, beta: Score, best: Action, k: nat)
    requires i <= k < |t| && Answered(t, i)
    requires Lt(beta, ScoreAt(t, k))
    requires forall m :: i <= m < k ==> Le(ScoreAt(t, m), beta)
    ensures Fold(t, i, alpha, beta, best) == Chosen(beta, t[k].action)
    decreases k - i
  {
    if i < k {
      var score := ScoreAt(t, i);
      FoldCutoff(t, i + 1, if Lt(alpha, score) then score else alpha, beta, if Lt(alpha, score) then t[i].action else best, k);
    }
  }

  /** When no answered score passes beta, the fold returns the largest of
      alpha and the scores; it returns alpha and the incoming best action
      when no score beats alpha. */
  lemma {:induction false} FoldNoCutoff(t: seq<TaskEntry>, i: nat, alpha: Score, beta: Score, best: Action)
    requires i <= |t| && Answered(t, i)
    requires forall m :: i <= m < |t| ==> Le(ScoreAt(t, m), beta)
    ensures Fold(t, i, alpha, beta, best).Chosen?
    ensures var r := Fold(t, i, alpha, beta, best);
            Le(alpha, r.score) && forall m :: i <= m < |t| ==> Le(ScoreAt(t, m), r.score)
    ensures (forall m :: i <= m < |t| ==> Le(ScoreAt(t, m), alpha)) ==>
              Fold(t, i, alpha, beta, best) == Chosen(alpha, best)
    decreases |t| - i
  {
    if i < |t| {
      var score := ScoreAt(t, i);
      if Lt(alpha, score) {
        FoldNoCutoff(t, i + 1, score, beta, t[i].action);
      } else {
        FoldNoCutoff(t, i + 1, alpha, beta, best);
      }
    }
  }

  /** The first row at or after `i` scoring strictly above alpha, if any,
      decides a fold with no cut-off: the fold returns the first score that
      reaches the maximum, with its action. */
  ghost predicate ArgmaxFrom(t: seq<TaskEntry>, i: nat, alpha: Score, beta: Score, best: Action)
    requires i <= |t| && Answered(t, i)
  {
    (exists m :: i <= m < |t| && Lt(alpha, ScoreAt(t, m))) ==>
      exists m :: i <= m < |t| && Lt(alpha, ScoreAt(t, m))
        && Fold(t, i, alpha, beta, best) == Chosen(ScoreAt(t, m), t[m].action)
        && forall p :: i <= p < m ==> Lt(ScoreAt(t, p), ScoreAt(t, m))
  }

  /** When no answered score passes beta but some beats alpha, the fold
      returns the first score that reaches the maximum, with its action. */
  lemma {:induction false} FoldArgmax(t: seq<TaskEntry>, i: nat, alpha: Score, beta: Score, best: Action)
    requires i <= |t| && Answered(t, i)
    requires forall m :: i <= m < |t| ==> Le(ScoreAt(t, m), beta)
    ensures ArgmaxFrom(t, i, alpha, beta, best)
    decreases |t| - i, 1
  {
    if i < |t| {
      if Lt(alpha, ScoreAt(t, i)) {
        FoldArgmaxRaise(t, i, alpha, beta, best);
      } else {
        FoldArgmaxKeep(t, i, alpha, beta, best);
      }
    }
  }

  /** Row `i` beats alpha: it is the answer unless a later row beats it. */
  lemma {:induction false} FoldArgmaxRaise(t: seq<TaskEntry>, i: nat, alpha: Score, beta: Score, best: Action)
    requires i < |t| && Answered(t, i) && Lt(alpha, ScoreAt(t, i))
    requires forall m :: i <= m < |t| ==> Le(ScoreAt(t, m), beta)
    ensures ArgmaxFrom(t, i, alpha, beta, best)
    decreases |t| - i, 0
  {
    var score := ScoreAt(t, i);
    assert Fold(t, i, alpha, beta, best) == Fold(t, i + 1, score, beta, t[i].action);
    FoldArgmax(t, i + 1, score, beta, t[i].action);
    if exists m :: i + 1 <= m < |t| && Lt(score, ScoreAt(t, m)) {
      var m :| i + 1 <= m < |t| && Lt(score, ScoreAt(t, m))
               && Fold(t, i + 1, score, beta, t[i].action) == Chosen(ScoreAt(t, m), t[m].action)
               && forall p :: i + 1 <= p < m ==> Lt(ScoreAt(t, p), ScoreAt(t, m));
      assert Lt(alpha, ScoreAt(t, m));
    } else {
      FoldNoCutoff(t, i + 1, score, beta, t[i].action);
      assert i <= i < |t| && Lt(alpha, ScoreAt(t, i))
             && Fold(t, i, alpha, beta, best) == Chosen(ScoreAt(t, i), t[i].action);
    }
  }

  /** Row `i` does not beat alpha: the answer lies further on. */
  lemma {:induction false} FoldArgmaxKeep(t: seq<TaskEntry>, i: nat, alpha: Score, beta: Score, best: Action)
    requires i < |t| && Answered(t, i) && !Lt(alpha, ScoreAt(t, i))
    requires forall m :: i <= m < |t| ==> Le(ScoreAt(t, m), beta)
    ensures ArgmaxFrom(t, i, alpha, beta, best)
    decreases |t| - i, 0
  {
    assert Fold(t, i, alpha, beta, best) == Fold(t, i + 1, alpha, beta, best);
    FoldArgmax(t, i + 1, alpha, beta, best);
    if exists m :: i <= m < |t| && Lt(alpha, ScoreAt(t, m)) {
      var m :| i + 1 <= m < |t| && Lt(alpha, ScoreAt(t, m))
               && Fold(t, i + 1, alpha, beta, best) == Chosen(ScoreAt(t, m), t[m].action)
               && forall p :: i + 1 <= p < m ==> Lt(ScoreAt(t, p), ScoreAt(t, m));
      assert Lt(ScoreAt(t, i), ScoreAt(t, m));
    }
  }

  /** A search function with the signature of `alpha_beta`. */
  type SearchFn = (State, int, int, Score, Score) --> Score

  /** `search` accepts every valid position. */
  ghost predicate Searches(search: SearchFn) {
    forall st: State, d: int, m: int, a: Score, b: Score ::
      ValidBoard(st.board) ==> search.requires(st, d, m, a, b)
  }

  /** The single-process sibling loop: each sibling is searched by `search`
      (which `pvsplit` instantiates with `alpha_beta`) under the current
      window, and alpha rises as it goes. */
  function SerialSiblings(children: seq<State>, acts: seq<Action>, i: nat, depth: int, maxDepth: int,
                          alpha: Score, beta: Score, best: Action, search: SearchFn): (r: PvOutcome)
    requires AllValid(children) && |children| == |acts| && 1 <= i <= |acts| && Searches(search)
    ensures r.Chosen?
    ensures Le(alpha, beta) ==> Le(alpha, r.score) && Le(r.score, beta)
    ensures r.action == best || r.action in acts[i..]
    decreases |acts| - i
  {
    if i == |acts| then Chosen(alpha, best)
    else
      var score := search(children[i], depth + 1, maxDepth, alpha, beta);
      if Lt(beta, score) then Chosen(beta, acts[i])
      else if Lt(alpha, score) then SerialSiblings(children, acts, i + 1, depth, maxDepth, score, beta, acts[i], search)
      else SerialSiblings(children, acts, i + 1, depth, maxDepth, alpha, beta, best, search)
  }

  /** The multi-process sibling search: dispatch under the frozen window,
      file the worker's replies, fold the table. */
  function ParallelSiblings(s: State, acts: seq<Action>, depth: int, maxDepth: int,
                            alpha: Score, beta: Score, best: Action, size: int,
                            worker: SearchTask -> Score): (r: PvOutcome)
    requires ValidBoard(s.board) && AllOnGrid(acts) && |acts| >= 1 && size > 1
    ensures r.Chosen?
    ensures Le(alpha, beta) ==> Le(alpha, r.score) && Le(r.score, beta)
    ensures r.action == best || r.action in acts[1..]
  {
    var table := Dispatch(s, acts, depth, maxDepth, alpha, beta, size);
    CollectWorkerReplies(table, worker);
    match Collect(table, WorkerReplies(table, worker))
    case UnknownKey(o) => UnknownOrder(o)
    case Filled(filled) =>
      var r := Fold(filled, 0, alpha, beta, best);
      assert r.action != best ==> r.action in acts[1..] by {
        if r.action != best {
          var k :| 0 <= k < |filled| && r.action == filled[k].action;
          assert acts[1..][k] == acts[k + 1];
        }
      }
      r
  }

  /** The part of `pvsplit` after the first action has been searched with
      score `first`: a score strictly above beta returns beta at once; one
      strictly above alpha raises alpha; then the siblings are searched. */
  function AfterPrincipal(s: State, acts: seq<Action>, depth: int, maxDepth: int, alpha: Score, beta: Score,
                          first: Score, size: int, worker: SearchTask -> Score): (r: PvOutcome)
    requires ValidBoard(s.board) && AllOnGrid(acts) && |acts| >= 1
    ensures r.Chosen? && r.action in acts
    ensures Le(alpha, beta) ==> Le(alpha, r.score) && Le(r.score, beta)
  {
    if Lt(beta, first) then Chosen(beta, acts[0])
    else
      var alpha' := if Lt(alpha, first) then first else alpha;
      if size > 1 then ParallelSiblings(s, acts, depth, maxDepth, alpha', beta, acts[0], size, worker)
      else SerialSiblings(Children(s, acts), acts, 1, depth, maxDepth, alpha', beta, acts[0], AlphaBeta)
  }

  /** A leaf of `pvsplit`: a non-root call at the depth limit or without
      moves returns its own evaluation and the action that led to it. */
  predicate ReturnsLeaf(s: State, depth: int, maxDepth: int, action: Option<Action>)
    requires ValidBoard(s.board)
  {
    action.Some? && (IsLeaf(depth, maxDepth) || |Actions(s)| == 0)
  }

  /** `pvsplit(current_state, depth, alpha, beta, action)` with `size`
      processes; `action` is `None` at the root. The first action is
      searched by a recursive call that always takes the maximum, whatever
      the ply; the siblings follow serially or through the workers. */
  function Pvsplit(s: State, depth: int, maxDepth: int, alpha: Score, beta: Score, action: Option<Action>,
                   size: int, worker: SearchTask -> Score): (r: PvOutcome)
    requires ValidBoard(s.board)
    ensures r.Chosen? || r.NoLegalMove?
    ensures r.NoLegalMove? <==> action.None? && |Actions(s)| == 0
    ensures ReturnsLeaf(s, depth, maxDepth, action) ==> r == Chosen(LeafScore(s), action.value)
    ensures r.Chosen? && !ReturnsLeaf(s, depth, maxDepth, action) ==> r.action in Actions(s)
    ensures r.Chosen? && !ReturnsLeaf(s, depth, maxDepth, action) && Le(alpha, beta) ==>
              Le(alpha, r.score) && Le(r.score, beta)
    decreases Measure(depth, maxDepth), if action.None? then 1 else 0
  {
    var acts := Actions(s);
    if (IsLeaf(depth, maxDepth) || |acts| == 0) && action.Some? then Chosen(LeafScore(s), action.value)
    else if |acts| == 0 then NoLegalMove
    else
      var first := acts[0];
      var sub := Pvsplit(NextState(s, first), depth + 1, maxDepth, alpha, beta, Some(first), size, worker);
      AfterPrincipal(s, acts, depth, maxDepth, alpha, beta, sub.score, size, worker)
  }

  /** `run`: the root search with the infinite window. */
  function Run(s: State, maxDepth: int, size: int, worker: SearchTask -> Score): (r: PvOutcome)
    requires ValidBoard(s.board)
    ensures r.NoLegalMove? <==> |Actions(s)| == 0
    ensures r.Chosen? ==> r.action in Actions(s)
  {
    Pvsplit(s, 0, maxDepth, NegInf, PosInf, None, size, worker)
  }

  /** A worker that answers every task with `alpha_beta` on the task's
      position, depth and window. */
  ghost predicate WorkerSound(worker: SearchTask -> Score) {
    forall t: SearchTask :: ValidBoard(t.state.board) ==>
      worker(t) == AlphaBeta(t.state, t.depth, t.maxDepth, t.alpha, t.beta)
  }

  /** One sibling searched under the frozen window (alpha0, beta) and under
      the live window (alpha, beta), alpha0 <= alpha <= beta: the two scores
      agree on a cut-off, agree on whether they beat alpha, and are equal
      when they do. A child that is a leaf returns its evaluation in both;
      otherwise both clamp the same minimax value. */
  lemma FrozenLiveStep(child: State, depth: int, maxDepth: int, alpha0: Score, alpha: Score, beta: Score)
    requires ValidBoard(child.board) && Le(alpha0, alpha) && Le(alpha, beta)
    ensures var frozen := AlphaBeta(child, depth, maxDepth, alpha0, beta);
            var live := AlphaBeta(child, depth, maxDepth, alpha, beta);
            (Lt(beta, frozen) <==> Lt(beta, live))
            && (!Lt(beta, frozen) ==> (Lt(alpha, frozen) <==> Lt(alpha, live)))
            && (!Lt(beta, frozen) && Lt(alpha, frozen) ==> frozen == live && Le(alpha0, frozen) && Le(frozen, beta))
  {
    LeTotalOrder();
    assert Le(alpha0, beta);
    AlphaBetaExact(child, depth, maxDepth, alpha0, beta);
    AlphaBetaExact(child, depth, maxDepth, alpha, beta);
    if !Terminal(child, depth, maxDepth) {
      var mm := Minimax(child, depth, maxDepth);
      ClampRaise(mm, alpha0, alpha, beta);
      ClampInWindow(mm, alpha0, beta);
      ClampInWindow(mm, alpha, beta);
    }
  }

  /** `search` at `child` under the frozen window (alpha0, beta) and the
      live window (alpha, beta) behaves as `FrozenLiveStep` says. */
  ghost predicate StableAt(search: SearchFn, child: State, depth: int, maxDepth: int,
                           alpha0: Score, alpha: Score, beta: Score)
    requires ValidBoard(child.board) && Searches(search)
  {
    var frozen := search(child, depth, maxDepth, alpha0, beta);
    var live := search(child, depth, maxDepth, alpha, beta);
    (Lt(beta, frozen) <==> Lt(beta, live))
    && (!Lt(beta, frozen) ==> (Lt(alpha, frozen) <==> Lt(alpha, live)))
    && (!Lt(beta, frozen) && Lt(alpha, frozen) ==> frozen == live && Le(alpha0, frozen) && Le(frozen, beta))
  }

  /** A search whose result does not depend on how far alpha has been raised,
      beyond whether the result lies above it. */
  ghost predicate WindowStable(search: SearchFn)
    requires Searches(search)
  {
    forall child: State, depth: int, maxDepth: int, alpha0: Score, alpha: Score, beta: Score ::
      ValidBoard(child.board) && Le(alpha0, alpha) && Le(alpha, beta) ==>
        StableAt(search, child, depth, maxDepth, alpha0, alpha, beta)
  }

  /** `alpha_beta` accepts every valid position and is window-stable. */
  lemma AlphaBetaWindowStable()
    ensures Searches(AlphaBeta) && WindowStable(AlphaBeta)
  {
    forall child: State, depth: int, maxDepth: int, alpha0: Score, alpha: Score, beta: Score
      | ValidBoard(child.board) && Le(alpha0, alpha) && Le(alpha, beta)
      ensures StableAt(AlphaBeta, child, depth, maxDepth, alpha0, alpha, beta)
    {
      FrozenLiveStep(child, depth, maxDepth, alpha0, alpha, beta);
    }
  }

  /** The serial loop at sibling `i`, whose score under the current window
      is `live`: a score above beta ends the loop, one above alpha raises
      alpha, any other leaves the loop state as it was. */
  lemma SerialStep(children: seq<State>, acts: seq<Action>, i: nat, depth: int, maxDepth: int,
                   alpha: Score, beta: Score, best: Action, search: SearchFn, live: Score)
    requires AllValid(children) && |children| == |acts| && 1 <= i < |acts| && Searches(search)
    requires live == search(children[i], depth + 1, maxDepth, alpha, beta)
    ensures Lt(beta, live) ==>
              SerialSiblings(children, acts, i, depth, maxDepth, alpha, beta, best, search) == Chosen(beta, acts[i])
    ensures !Lt(beta, live) && !Lt(alpha, live) ==>
              SerialSiblings(children, acts, i, depth, maxDepth, alpha, beta, best, search)
              == SerialSiblings(children, acts, i + 1, depth, maxDepth, alpha, beta, best, search)
  {
  }

  /** The serial loop at sibling `i` when that sibling's score `live` raises
      alpha without reaching past beta. */
  lemma SerialRaise(children: seq<State>, acts: seq<Action>, i: nat, depth: int, maxDepth: int,
                    alpha: Score, beta: Score, best: Action, search: SearchFn, live: Score)
    requires AllValid(children) && |children| == |acts| && 1 <= i < |acts| && Searches(search)
    requires live == search(children[i], depth + 1, maxDepth, alpha, beta)
    requires !Lt(beta, live) && Lt(alpha, live)
    ensures SerialSiblings(children, acts, i, depth, maxDepth, alpha, beta, best, search)
            == SerialSiblings(children, acts, i + 1, depth, maxDepth, live, beta, acts[i], search)
  {
  }

  /** Row `k` of the table holds sibling `k + 1` and its score by `search`
      under the window (alpha0, beta). */
  ghost predicate FrozenRow(children: seq<State>, acts: seq<Action>, t: seq<TaskEntry>, k: int,
                            depth: int, maxDepth: int, alpha0: Score, beta: Score, search: SearchFn)
    requires AllValid(children) && |children| == |acts| && |t| == |acts| - 1 && 0 <= k < |t| && Searches(search)
  {
    t[k].action == acts[k + 1]
    && t[k].score == Some(search(children[k + 1], depth + 1, maxDepth, alpha0, beta))
  }

  ghost predicate FrozenRows(children: seq<State>, acts: seq<Action>, t: seq<TaskEntry>, depth: int, maxDepth: int,
                             alpha0: Score, beta: Score, search: SearchFn)
    requires AllValid(children) && |children| == |acts| && |t| == |acts| - 1 && Searches(search)
  {
    forall k :: 0 <= k < |t| ==> FrozenRow(children, acts, t, k, depth, maxDepth, alpha0, beta, search)
  }

  /** The frozen-window fold over the workers' scores agrees with the
      live-window serial loop, row by row, as long as the live alpha stays
      at or above the frozen one. */
  lemma {:induction false} FrozenEqualsLive(children: seq<State>, acts: seq<Action>, t: seq<TaskEntry>, j: nat,
                                            depth: int, maxDepth: int, alpha0: Score, alpha: Score,
                                            beta: Score, best: Action, search: SearchFn)
    requires AllValid(children) && |children| == |acts| && |acts| >= 1 && |t| == |acts| - 1 && j <= |t|
    requires Searches(search) && WindowStable(search)
    requires FrozenRows(children, acts, t, depth, maxDepth, alpha0, beta, search)
    requires Le(alpha0, alpha) && Le(alpha, beta)
    ensures Fold(t, j, alpha, beta, best) == SerialSiblings(children, acts, j + 1, depth, maxDepth, alpha, beta, best, search)
    decreases |t| - j
  {
    if j < |t| {
      var child := children[j + 1];
      var frozen := search(child, depth + 1, maxDepth, alpha0, beta);
      var live := search(child, depth + 1, maxDepth, alpha, beta);
      assert StableAt(search, child, depth + 1, maxDepth, alpha0, alpha, beta);
      assert FrozenRow(children, acts, t, j, depth, maxDepth, alpha0, beta, search);
      if !Lt(beta, frozen) && Lt(alpha, frozen) {
        SerialRaise(children, acts, j + 1, depth, maxDepth, alpha, beta, best, search, live);
        FrozenEqualsLive(children, acts, t, j + 1, depth, maxDepth, alpha0, frozen, beta, acts[j + 1], search);
      } else {
        SerialStep(children, acts, j + 1, depth, maxDepth, alpha, beta, best, search, live);
        if !Lt(beta, frozen) {
          FrozenEqualsLive(children, acts, t, j + 1, depth, maxDepth, alpha0, alpha, beta, best, search);
        }
      }
    }
  }

  /** Row `k` of `table` is the task for sibling `k + 1` under the window
      (alpha, beta), one ply below `depth`. */
  ghost predicate TaskRow(children: seq<State>, acts: seq<Action>, table: seq<TaskEntry>, k: int,
                          depth: int, maxDepth: int, alpha: Score, beta: Score)
    requires |children| == |acts| && |table| == |acts| - 1 && 0 <= k < |table|
  {
    table[k].action == acts[k + 1]
    && table[k].task == SearchTask(children[k + 1], depth + 1, maxDepth, alpha, beta, k)
  }

  /** The dispatched table holds, row by row, the task for each sibling
      after the first. */
  lemma DispatchRows(s: State, acts: seq<Action>, depth: int, maxDepth: int, alpha: Score, beta: Score, size: int)
    requires ValidBoard(s.board) && AllOnGrid(acts) && |acts| >= 1 && size > 1
    ensures var table := Dispatch(s, acts, depth, maxDepth, alpha, beta, size);
            forall k :: 0 <= k < |table| ==> TaskRow(Children(s, acts), acts, table, k, depth, maxDepth, alpha, beta)
  {
  }

  /** `worker` answers every task on a valid position with `search` on the
      task's position, depth and window. */
  ghost predicate Answers(worker: SearchTask -> Score, search: SearchFn)
    requires Searches(search)
  {
    forall t: SearchTask :: ValidBoard(t.state.board) ==>
      worker(t) == search(t.state, t.depth, t.maxDepth, t.alpha, t.beta)
  }

  /** A sound worker answers with `alpha_beta`, which is window-stable. */
  lemma SoundWorkerAnswers(worker: SearchTask -> Score)
    requires WorkerSound(worker)
    ensures Searches(AlphaBeta) && WindowStable(AlphaBeta) && Answers(worker, AlphaBeta)
  {
    AlphaBetaWindowStable();
  }

  /** With workers that answer with `search`, the collected table holds,
      row by row, each sibling after the first and its score under the
      window the parent held when dispatching. */
  lemma WorkerRows(children: seq<State>, acts: seq<Action>, table: seq<TaskEntry>, depth: int, maxDepth: int,
                   alpha: Score, beta: Score, worker: SearchTask -> Score, search: SearchFn)
    requires AllValid(children) && |children| == |acts| && |table| == |acts| - 1
    requires Searches(search) && Answers(worker, search)
    requires forall k :: 0 <= k < |table| ==> TaskRow(children, acts, table, k, depth, maxDepth, alpha, beta)
    ensures var c := Collect(table, WorkerReplies(table, worker));
            c.Filled? && |c.table| == |acts| - 1
            && FrozenRows(children, acts, c.table, depth, maxDepth, alpha, beta, search)
  {
    assert forall k :: 0 <= k < |table| ==> table[k].task.order == k by {
      forall k | 0 <= k < |table| ensures table[k].task.order == k {
        assert TaskRow(children, acts, table, k, depth, maxDepth, alpha, beta);
      }
    }
    CollectWorkerReplies(table, worker);
    var filled := Collect(table, WorkerReplies(table, worker)).table;
    forall k | 0 <= k < |filled|
      ensures FrozenRow(children, acts, filled, k, depth, maxDepth, alpha, beta, search)
    {
      assert TaskRow(children, acts, table, k, depth, maxDepth, alpha, beta);
      assert filled[k] == table[k].(score := Some(worker(table[k].task)));
      assert ValidBoard(children[k + 1].board);
    }
  }

  /** A table of sibling tasks, answered by workers that run a window-stable
      search and folded under its dispatch window, gives what the
      single-process loop over those siblings with that search gives. */
  lemma FoldCollected(children: seq<State>, acts: seq<Action>, table: seq<TaskEntry>, depth: int, maxDepth: int,
                      alpha: Score, beta: Score, best: Action, worker: SearchTask -> Score, search: SearchFn)
    requires AllValid(children) && |children| == |acts| && |acts| >= 1 && |table| == |acts| - 1
    requires Searches(search) && WindowStable(search) && Answers(worker, search) && Le(alpha, beta)
    requires forall k :: 0 <= k < |table| ==> TaskRow(children, acts, table, k, depth, maxDepth, alpha, beta)
    ensures var c := Collect(table, WorkerReplies(table, worker));
            c.Filled? && Fold(c.table, 0, alpha, beta, best)
                         == SerialSiblings(children, acts, 1, depth, maxDepth, alpha, beta, best, search)
  {
    WorkerRows(children, acts, table, depth, maxDepth, alpha, beta, worker, search);
    var filled := Collect(table, WorkerReplies(table, worker)).table;
    FrozenEqualsLive(children, acts, filled, 0, depth, maxDepth, alpha, alpha, beta, best, search);
  }

  /** With workers that run `alpha_beta`, the siblings' multi-process search
      returns what the single-process loop returns. */
  lemma ParallelEqualsSerial(s: State, acts: seq<Action>, depth: int, maxDepth: int, alpha: Score, beta: Score,
                             best: Action, size: int, worker: SearchTask -> Score)
    requires ValidBoard(s.board) && AllOnGrid(acts) && |acts| >= 1 && size > 1
    requires WorkerSound(worker) && Le(alpha, beta)
    ensures ParallelSiblings(s, acts, depth, maxDepth, alpha, beta, best, size, worker)
            == SerialSiblings(Children(s, acts), acts, 1, depth, maxDepth, alpha, beta, best, AlphaBeta)
  {
    var table := Dispatch(s, acts, depth, maxDepth, alpha, beta, size);
    DispatchRows(s, acts, depth, maxDepth, alpha, beta, size);
    SoundWorkerAnswers(worker);
    FoldCollected(Children(s, acts), acts, table, depth, maxDepth, alpha, beta, best, worker, AlphaBeta);
  }

  /** With workers that run `alpha_beta`, the part after the first action
      returns the same for any number of processes. */
  lemma AfterPrincipalSizeIndependent(s: State, acts: seq<Action>, depth: int, maxDepth: int, alpha: Score,
                                      beta: Score, first: Score, size: int, worker: SearchTask -> Score)
    requires ValidBoard(s.board) && AllOnGrid(acts) && |acts| >= 1 && size > 1
    requires WorkerSound(worker) && Le(alpha, beta)
    ensures AfterPrincipal(s, acts, depth, maxDepth, alpha, beta, first, size, worker)
            == AfterPrincipal(s, acts, depth, maxDepth, alpha, beta, first, 1, worker)
  {
    if !Lt(beta, first) {
      var alpha' := if Lt(alpha, first) then first else alpha;
      ParallelEqualsSerial(s, acts, depth, maxDepth, alpha', beta, acts[0], size, worker);
    }
  }

  /** With workers that run `alpha_beta`, the multi-process search returns
      exactly what the single-process search returns. */
  lemma {:induction false} PvsplitSizeIndependent(s: State, depth: int, maxDepth: int, alpha: Score, beta: Score,
                                                  action: Option<Action>, size: int, worker: SearchTask -> Score)
    requires ValidBoard(s.board) && size > 1 && WorkerSound(worker) && Le(alpha, beta)
    ensures Pvsplit(s, depth, maxDepth, alpha, beta, action, size, worker)
            == Pvsplit(s, depth, maxDepth, alpha, beta, action, 1, worker)
    decreases Measure(depth, maxDepth), if action.None? then 1 else 0
  {
    var acts := Actions(s);
    if !((IsLeaf(depth, maxDepth) || |acts| == 0) && action.Some?) && |acts| > 0 {
      var first := acts[0];
      var child := NextState(s, first);
      PvsplitSizeIndependent(child, depth + 1, maxDepth, alpha, beta, Some(first), size, worker);
      var sub := Pvsplit(child, depth + 1, maxDepth, alpha, beta, Some(first), 1, worker);
      AfterPrincipalSizeIndependent(s, acts, depth, maxDepth, alpha, beta, sub.score, size, worker);
    }
  }
}
