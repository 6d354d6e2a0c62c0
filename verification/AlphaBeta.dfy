/** The recursive fail-soft search, with pruning on or off. */
module AlphaBeta {
  import opened Chess

  /** What a search counts. Every cutoff is `Early`, with moves left to skip, or `Late`,
      on the last move of its node. */
  datatype Counter = Nodes | Leaves | Cutoffs | Early | Late

  function PerNode(c: Counter): nat {
    if c.Nodes? then 1 else 0
  }

  function PerLeaf(c: Counter): nat {
    if c.Nodes? || c.Leaves? then 1 else 0
  }

  function PerCutoff(c: Counter, last: bool): nat {
    if c.Cutoffs? || (c.Late? && last) || (c.Early? && !last) then 1 else 0
  }

  /** Score of the alpha-beta search of a tree. */
  function Score(t: Tree, alpha: int, beta: int): int {
    if t.Inner? then ScoreRest(t.kids, -INF, alpha, beta) else LeafScore(t)
  }

  /** The remaining moves of a node, with its best score so far and its current window. */
  function ScoreRest(ts: Trees, best: int, alpha: int, beta: int): int {
    if ts.Nil? then best
    else
      var s := -Score(ts.head, -beta, -alpha);
      if Max(alpha, s) >= beta then Max(best, s)
      else ScoreRest(ts.tail, Max(best, s), Max(alpha, s), beta)
  }

  /** What the same search counts. */
  function Count(c: Counter, t: Tree, alpha: int, beta: int): nat {
    if t.Inner? then PerNode(c) + CountRest(c, t.kids, alpha, beta) else PerLeaf(c)
  }

  function CountRest(c: Counter, ts: Trees, alpha: int, beta: int): nat {
    if ts.Nil? then 0
    else
      var s := -Score(ts.head, -beta, -alpha);
      Count(c, ts.head, -beta, -alpha) +
      if Max(alpha, s) >= beta then PerCutoff(c, ts.tail.Nil?)
      else CountRest(c, ts.tail, Max(alpha, s), beta)
  }

  /** What a search without pruning counts: the whole tree. */
  function Size(c: Counter, t: Tree): nat {
    if t.Inner? then PerNode(c) + SizeRest(c, t.kids) else PerLeaf(c)
  }

  function SizeRest(c: Counter, ts: Trees): nat {
    if ts.Nil? then 0 else Size(c, ts.head) + SizeRest(c, ts.tail)
  }

  function RunScore(t: Tree, alpha: int, beta: int, prune: bool): int {
    if prune then Score(t, alpha, beta) else Value(t)
  }

  function RunCount(c: Counter, t: Tree, alpha: int, beta: int, prune: bool): nat {
    if prune then Count(c, t, alpha, beta) else Size(c, t)
  }

  /** A search over the whole score range. */
  function FullCount(c: Counter, t: Tree): nat {
    Count(c, t, -INF, INF)
  }

  method Negamax(g: Rules, board: Board, depth: nat, ply: int, alpha0: int, beta: int,
                 stats: Stats, prune: bool) returns (best: int)
    modifies board, stats
    ensures board.pos == old(board.pos) && board.made == old(board.made)
    ensures var t := GameTree(g, old(board.pos), depth, ply);
            && best == RunScore(t, alpha0, beta, prune)
            && stats.nodes == old(stats.nodes) + RunCount(Nodes, t, alpha0, beta, prune)
            && stats.leaves == old(stats.leaves) + RunCount(Leaves, t, alpha0, beta, prune)
            && stats.cutoffs == old(stats.cutoffs) + RunCount(Cutoffs, t, alpha0, beta, prune)
    decreases depth, 1
  {
    stats.nodes := stats.nodes + 1;
    var moves := g.Moves(board.pos);
    if |moves| == 0 {
      stats.leaves := stats.leaves + 1;
      return if g.InCheck(board.pos) then -MATE + ply else 0;
    }
    if g.Drawn(board.pos) {
      stats.leaves := stats.leaves + 1;
      return 0;
    }
    if depth == 0 {
      stats.leaves := stats.leaves + 1;
      best := Evaluate(board.pos);
      return;
    }
    ghost var p := board.pos;
    ghost var todo := Kids(g, p, depth, ply, 0);
    best := -INF;
    var alpha := alpha0;
    ghost var whole := todo;
    BestFloor(whole);
    for i := 0 to |moves|
      invariant board.pos == p && board.made == old(board.made)
      invariant todo == Kids(g, p, depth, ply, i)
      invariant -INF <= best
      invariant if prune
        then ScoreRest(whole, -INF, alpha0, beta) == ScoreRest(todo, best, alpha, beta)
        else Best(whole) == Max(best, Best(todo))
      invariant Owed(whole, alpha0, todo, alpha, beta, prune, stats.nodes - old(stats.nodes) - 1,
                     stats.leaves - old(stats.leaves), stats.cutoffs - old(stats.cutoffs))
    {
      Turn(whole, alpha0, todo, alpha, beta, prune, stats.nodes - old(stats.nodes) - 1,
           stats.leaves - old(stats.leaves), stats.cutoffs - old(stats.cutoffs));
      var score := PlayAndSearch(g, board, moves[i], depth, ply, alpha, beta, stats, prune);
      best := Max(best, score);
      if prune {
        alpha := Max(alpha, score);
      }
      if prune && alpha >= beta {
        stats.cutoffs := stats.cutoffs + 1;
        break;
      }
      todo := todo.tail;
    }
  }

  /** One turn of the move loop: play the move, search the position, take the move back. */
  method PlayAndSearch(g: Rules, board: Board, move: Move, depth: nat, ply: int, alpha: int, beta: int,
                       stats: Stats, prune: bool) returns (score: int)
    requires depth > 0
    modifies board, stats
    ensures board.pos == old(board.pos) && board.made == old(board.made)
    ensures var t := GameTree(g, g.Play(old(board.pos), move), depth - 1, ply + 1);
            && score == -RunScore(t, -beta, -alpha, prune)
            && stats.nodes == old(stats.nodes) + RunCount(Nodes, t, -beta, -alpha, prune)
            && stats.leaves == old(stats.leaves) + RunCount(Leaves, t, -beta, -alpha, prune)
            && stats.cutoffs == old(stats.cutoffs) + RunCount(Cutoffs, t, -beta, -alpha, prune)
    decreases depth, 0
  {
    board.MakeMove(g, move);
    var reply := Negamax(g, board, depth - 1, ply + 1, -beta, -alpha, stats, prune);
    board.UnmakeMove(move);
    score := -reply;
  }

  lemma {:induction false} BestFloor(ts: Trees)
    ensures -INF <= Best(ts)
  {
    if ts.Cons? {
      BestFloor(ts.tail);
    }
  }

  ghost function RestCount(c: Counter, ts: Trees, alpha: int, beta: int, prune: bool): nat {
    if prune then CountRest(c, ts, alpha, beta) else SizeRest(c, ts)
  }

  /** Within a move loop that began with `whole` and `alpha0`: what has been counted, and
      what the moves in `todo` will count, make up the whole count. */
  ghost predicate Owed(whole: Trees, alpha0: int, todo: Trees, alpha: int, beta: int, prune: bool,
                       nodes: int, leaves: int, cutoffs: int)
  {
    && nodes + RestCount(Nodes, todo, alpha, beta, prune) == RestCount(Nodes, whole, alpha0, beta, prune)
    && leaves + RestCount(Leaves, todo, alpha, beta, prune) == RestCount(Leaves, whole, alpha0, beta, prune)
    && cutoffs + RestCount(Cutoffs, todo, alpha, beta, prune) == RestCount(Cutoffs, whole, alpha0, beta, prune)
  }

  lemma Turn(whole: Trees, alpha0: int, todo: Trees, alpha: int, beta: int, prune: bool,
             nodes: int, leaves: int, cutoffs: int)
    requires Owed(whole, alpha0, todo, alpha, beta, prune, nodes, leaves, cutoffs)
    ensures todo.Cons? ==>
      var s := -RunScore(todo.head, -beta, -alpha, prune);
      var alpha' := if prune then Max(alpha, s) else alpha;
      var n := nodes + RunCount(Nodes, todo.head, -beta, -alpha, prune);
      var l := leaves + RunCount(Leaves, todo.head, -beta, -alpha, prune);
      var c := cutoffs + RunCount(Cutoffs, todo.head, -beta, -alpha, prune);
      if prune && alpha' >= beta then Owed(whole, alpha0, Nil, alpha', beta, prune, n, l, c + 1)
      else Owed(whole, alpha0, todo.tail, alpha', beta, prune, n, l, c)
  {
  }

  lemma {:induction false} CutoffsAreEarlyOrLate(t: Tree, alpha: int, beta: int)
    ensures Count(Cutoffs, t, alpha, beta) == Count(Early, t, alpha, beta) + Count(Late, t, alpha, beta)
  {
    if t.Inner? {
      CutoffsAreEarlyOrLateRest(t.kids, alpha, beta);
    }
  }

  lemma {:induction false} CutoffsAreEarlyOrLateRest(ts: Trees, alpha: int, beta: int)
    ensures CountRest(Cutoffs, ts, alpha, beta) == CountRest(Early, ts, alpha, beta) + CountRest(Late, ts, alpha, beta)
  {
    if ts.Cons? {
      var s := -Score(ts.head, -beta, -alpha);
      CutoffsAreEarlyOrLate(ts.head, -beta, -alpha);
      CutoffsAreEarlyOrLateRest(ts.tail, Max(alpha, s), beta);
    }
  }

  // ------------------------------------------------------------ the fail-soft contract

  /** `r` tells as much about the value `v` as the window (alpha, beta) asks for. */
  predicate FailSoft(r: int, v: int, alpha: int, beta: int) {
    && (r <= alpha ==> v <= r)
    && (alpha < r < beta ==> v == r)
    && (r >= beta ==> v >= r)
  }

  lemma {:induction false} SearchIsFailSoft(t: Tree, alpha: int, beta: int)
    requires Sound(t) && alpha < beta
    ensures var r := Score(t, alpha, beta);
            -INF < r < INF && FailSoft(r, Value(t), alpha, beta)
  {
    if t.Inner? {
      RestIsFailSoft(t.kids, -INF, alpha, beta);
    }
  }

  /** Within a node: `best` is what the moves searched so far have given. */
  lemma {:induction false} RestIsFailSoft(ts: Trees, best: int, alpha: int, beta: int)
    requires AllSound(ts) && alpha < beta && -INF <= best < INF
    requires (-INF < best <= alpha) || (best == -INF && ts.Cons?)
    ensures var r := ScoreRest(ts, best, alpha, beta);
            -INF < r < INF && best <= r && FailSoft(r, Max(best, Best(ts)), alpha, beta)
  {
    if ts.Cons? {
      var r := Score(ts.head, -beta, -alpha);
      SearchIsFailSoft(ts.head, -beta, -alpha);
      ValueInRange(ts.head);
      BestInRange(ts.tail);
      if Max(alpha, -r) < beta {
        RestIsFailSoft(ts.tail, Max(best, -r), Max(alpha, -r), beta);
      }
    }
  }

  /** Over the whole range the pruned score is the value itself. */
  lemma FullIsExact(t: Tree)
    requires Sound(t)
    ensures Score(t, -INF, INF) == Value(t)
  {
    SearchIsFailSoft(t, -INF, INF);
  }
}
