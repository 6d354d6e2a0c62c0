/** Searches that share out the moves of the root. */
module Root {
  import opened Chess
  import opened AlphaBeta

  datatype Result = Result(score: int, moveIndex: int, nodes: nat, leaves: nat, cutoffs: nat)

  /** What every backend must return: the exact value, and the first move that attains it;
      no move where there is none to choose. */
  ghost predicate Answers(t: Tree, score: int, moveIndex: int) {
    && score == Value(t)
    && if t.Inner? then
         && 0 <= moveIndex < Length(t.kids)
         && -Value(Nth(t.kids, moveIndex)) == score
         && forall j | 0 <= j < moveIndex :: -Value(Nth(t.kids, j)) < score
       else moveIndex == -1
  }

  lemma AnswersAreUnique(t: Tree, score: int, moveIndex: int, score': int, moveIndex': int)
    requires Answers(t, score, moveIndex) && Answers(t, score', moveIndex')
    ensures score == score' && moveIndex == moveIndex'
  {
  }

  // ------------------------------------------------------- choosing the first best move

  /** The selection loop after `i` moves. */
  ghost predicate BestSoFar(ts: Trees, i: nat, score: int, moveIndex: int)
    requires i <= Length(ts)
  {
    if i == 0 then score == -INF && moveIndex == -1
    else
      && 0 <= moveIndex < i
      && -Value(Nth(ts, moveIndex)) == score
      && (forall j | 0 <= j < i :: -Value(Nth(ts, j)) <= score)
      && (forall j | 0 <= j < moveIndex :: -Value(Nth(ts, j)) < score)
  }

  /** A score that beats the best so far has to be exact; any other only has to be an upper
      bound. This is all that the strict comparison needs. */
  ghost predicate GoodEnough(s: int, v: int, best: int) {
    -INF < s && if s > best then s == v else v <= s
  }

  lemma SelectStep(ts: Trees, i: nat, score: int, moveIndex: int, s: int)
    requires i < Length(ts) && BestSoFar(ts, i, score, moveIndex)
    requires GoodEnough(s, -Value(Nth(ts, i)), score)
    ensures BestSoFar(ts, i + 1, Max(score, s), if s > score then i else moveIndex)
  {
    var score' := Max(score, s);
    forall j | 0 <= j <= i ensures -Value(Nth(ts, j)) <= score' {
      assert j < i ==> -Value(Nth(ts, j)) <= score;
    }
  }

  lemma {:induction false} SelectDone(ts: Trees, score: int, moveIndex: int)
    requires AllSound(ts) && ts.Cons? && BestSoFar(ts, Length(ts), score, moveIndex)
    ensures Answers(Inner(ts), score, moveIndex)
  {
    BestIsMaximum(ts);
  }

  // -------------------------------------------------------------------- root positions

  ghost function RootTree(g: Rules, initial: Position, depth: nat): Tree {
    GameTree(g, initial, depth, 0)
  }

  lemma {:induction false} NthKid(g: Rules, p: Position, depth: nat, ply: int, i: nat, k: nat)
    requires depth > 0 && i + k < g.Width(p)
    ensures k < Length(Kids(g, p, depth, ply, i))
    ensures Nth(Kids(g, p, depth, ply, i), k) == GameTree(g, g.Child(p, i + k), depth - 1, ply + 1)
    decreases k
  {
    if k > 0 {
      NthKid(g, p, depth, ply, i + 1, k - 1);
    } else if i + 1 < g.Width(p) {
      assert Length(Kids(g, p, depth, ply, i)) == 1 + Length(Kids(g, p, depth, ply, i + 1));
    }
  }

  lemma RootIsSound(g: Rules, initial: Position, depth: nat)
    requires InRange(depth, 0)
    ensures Sound(RootTree(g, initial, depth))
    ensures !g.Over(initial) && depth > 0 ==>
      var kids := Kids(g, initial, depth, 0, 0);
      RootTree(g, initial, depth) == Inner(kids) && AllSound(kids) && Length(kids) == g.Width(initial)
  {
    GameTreeIsSound(g, initial, depth, 0);
    if !g.Over(initial) && depth > 0 {
      KidsAreSound(g, initial, depth, 0, 0);
      KidsLength(g, initial, depth, 0, 0);
    }
  }

  // ------------------------------------------------------------------- serial search

  method SerialSearch(g: Rules, initial: Position, moves: seq<Move>, depth: nat, prune: bool)
    returns (r: Result)
    requires moves == g.Moves(initial) && depth > 0 && InRange(depth, 0)
    ensures var t := RootTree(g, initial, depth);
      && Answers(t, r.score, r.moveIndex)
      && r.nodes == RunCount(Nodes, t, -INF, INF, prune)
      && r.leaves == RunCount(Leaves, t, -INF, INF, prune)
      && r.cutoffs == RunCount(Cutoffs, t, -INF, INF, prune)
  {
    RootIsSound(g, initial, depth);
    if |moves| == 0 {
      var board := new Board(initial);
      var stats := new Stats();
      var score := Negamax(g, board, depth, 0, -INF, INF, stats, prune);
      return Result(score, -1, stats.nodes, stats.leaves, stats.cutoffs);
    }
    if g.Drawn(initial) {
      return Result(0, -1, 1, 1, 0);
    }
    r := SerialLoop(g, initial, moves, depth, prune);
  }

  method SerialLoop(g: Rules, initial: Position, moves: seq<Move>, depth: nat, prune: bool)
    returns (r: Result)
    requires moves == g.Moves(initial) && depth > 0 && InRange(depth, 0) && !g.Over(initial)
    ensures var t := RootTree(g, initial, depth);
      && Answers(t, r.score, r.moveIndex)
      && r.nodes == RunCount(Nodes, t, -INF, INF, prune)
      && r.leaves == RunCount(Leaves, t, -INF, INF, prune)
      && r.cutoffs == RunCount(Cutoffs, t, -INF, INF, prune)
  {
    RootIsSound(g, initial, depth);
    ghost var kids := Kids(g, initial, depth, 0, 0);
    ghost var todo := kids;
    ghost var n := 1 + RestCount(Nodes, kids, -INF, INF, prune);
    ghost var l := RestCount(Leaves, kids, -INF, INF, prune);
    ghost var c := RestCount(Cutoffs, kids, -INF, INF, prune);
    var stats := new Stats();
    stats.nodes := 1;
    var score, moveIndex, alpha := -INF, -1, -INF;
    for i := 0 to |moves|
      invariant todo == Kids(g, initial, depth, 0, i)
      invariant Midway(kids, i, todo, alpha, prune, score, moveIndex,
                       n - stats.nodes, l - stats.leaves, c - stats.cutoffs)
    {
      NthKid(g, initial, depth, 0, 0, i);
      var s := SearchRootMove(g, initial, moves[i], depth, if prune then -alpha else INF, stats, prune,
                              kids, i, todo, alpha, score, moveIndex, n, l, c);
      if s > score {
        score, moveIndex := s, i;
      }
      if prune {
        alpha := Max(alpha, s);
      }
      todo := todo.tail;
    }
    SelectDone(kids, score, moveIndex);
    r := Result(score, moveIndex, stats.nodes, stats.leaves, stats.cutoffs);
  }

  /** The loop before move `i`: the best so far, alpha, and what is still to be counted. */
  ghost predicate Midway(kids: Trees, i: nat, todo: Trees, alpha: int, prune: bool, score: int, moveIndex: int,
                         nodes: int, leaves: int, cutoffs: int)
  {
    && i <= Length(kids) && BestSoFar(kids, i, score, moveIndex) && -INF <= score < INF
    && alpha == (if prune then score else -INF)
    && AllSound(todo)
    && nodes == RestCount(Nodes, todo, alpha, INF, prune)
    && leaves == RestCount(Leaves, todo, alpha, INF, prune)
    && cutoffs == RestCount(Cutoffs, todo, alpha, INF, prune)
  }

  lemma RootTurn(kids: Trees, i: nat, todo: Trees, alpha: int, prune: bool, score: int, moveIndex: int,
                 nodes: int, leaves: int, cutoffs: int)
    requires Midway(kids, i, todo, alpha, prune, score, moveIndex, nodes, leaves, cutoffs)
    requires i < Length(kids) && todo.Cons? && Nth(kids, i) == todo.head
    ensures var beta := if prune then -alpha else INF;
      var s := -RunScore(todo.head, -INF, beta, prune);
      Midway(kids, i + 1, todo.tail, if prune then Max(alpha, s) else alpha, prune,
             Max(score, s), if s > score then i else moveIndex,
             nodes - RunCount(Nodes, todo.head, -INF, beta, prune),
             leaves - RunCount(Leaves, todo.head, -INF, beta, prune),
             cutoffs - RunCount(Cutoffs, todo.head, -INF, beta, prune))
  {
    var beta := if prune then -alpha else INF;
    var s := -RunScore(todo.head, -INF, beta, prune);
    ExactWhenBetter(todo.head, beta, score, s, prune);
    SelectStep(kids, i, score, moveIndex, s);
  }

  /** One turn of the loop: plays a root move on a copy of the board and searches it. */
  method SearchRootMove(g: Rules, initial: Position, move: Move, depth: nat, beta: int, stats: Stats, prune: bool,
                        ghost kids: Trees, ghost i: nat, ghost todo: Trees, ghost alpha: int, ghost score: int,
                        ghost moveIndex: int, ghost n: int, ghost l: int, ghost c: int) returns (s: int)
    requires depth > 0 && beta == if prune then -alpha else INF
    requires Midway(kids, i, todo, alpha, prune, score, moveIndex, n - stats.nodes, l - stats.leaves, c - stats.cutoffs)
    requires i < Length(kids) && todo.Cons? && Nth(kids, i) == todo.head
    requires todo.head == GameTree(g, g.Play(initial, move), depth - 1, 1)
    modifies stats
    ensures Midway(kids, i + 1, todo.tail, if prune then Max(alpha, s) else alpha, prune,
                   Max(score, s), if s > score then i else moveIndex,
                   n - stats.nodes, l - stats.leaves, c - stats.cutoffs)
  {
    RootTurn(kids, i, todo, alpha, prune, score, moveIndex, n - stats.nodes, l - stats.leaves, c - stats.cutoffs);
    var board := new Board(initial);
    board.MakeMove(g, move);
    var reply := Negamax(g, board, depth - 1, 1, -INF, beta, stats, prune);
    s := -reply;
  }

  /** With the best score so far as bound, a better score is exact. */
  lemma ExactWhenBetter(t: Tree, beta: int, best: int, s: int, prune: bool)
    requires Sound(t) && -INF <= best < INF && (prune ==> beta == -best)
    requires s == -RunScore(t, -INF, beta, prune)
    ensures GoodEnough(s, -Value(t), best) && s < INF
  {
    ValueInRange(t);
    if prune {
      SearchIsFailSoft(t, -INF, beta);
    }
  }
}
