/** Alpha-beta on the host above chunks of bounded depth that the device searches. */
module Chunked {
  import opened Options
  import opened Chess
  import opened AlphaBeta
  import opened Windows
  import opened FlatTree
  import opened Device
  import opened Schedule
  import opened Root
  import opened ParallelRoot
  import opened Gpu

  // ------------------------------------------------------------- the search as a function

  /** Above the chunks: alpha-beta. A chunk returns its exact value, whatever the window. */
  function ChunkScore(t: Tree, depth: nat, chunk: nat, alpha: int, beta: int): int
    decreases t, 1
  {
    if depth <= chunk then Value(t)
    else if t.Inner? then ChunkScoreRest(t.kids, depth - 1, chunk, -INF, alpha, beta)
    else LeafScore(t)
  }

  function ChunkScoreRest(ts: Trees, depth: nat, chunk: nat, best: int, alpha: int, beta: int): int
    decreases ts, 0
  {
    if ts.Nil? then best
    else
      var s := -ChunkScore(ts.head, depth, chunk, -beta, -alpha);
      if Max(alpha, s) >= beta then Max(best, s)
      else ChunkScoreRest(ts.tail, depth, chunk, Max(best, s), Max(alpha, s), beta)
  }

  /** A chunk counts its root and what the device counts below each of its moves. */
  function WholeChunk(f: Field, t: Tree): nat {
    if t.Inner? then PerNode(AsCounter(f)) + EachCount(DeviceCounter(f), t.kids, INF)
    else PerLeaf(AsCounter(f))
  }

  function ChunkCount(f: Field, t: Tree, depth: nat, chunk: nat, alpha: int, beta: int): nat
    decreases t, 1
  {
    if depth <= chunk then WholeChunk(f, t)
    else if t.Inner? then PerNode(AsCounter(f)) + ChunkCountRest(f, t.kids, depth - 1, chunk, alpha, beta)
    else PerLeaf(AsCounter(f))
  }

  function ChunkCountRest(f: Field, ts: Trees, depth: nat, chunk: nat, alpha: int, beta: int): nat
    decreases ts, 0
  {
    if ts.Nil? then 0
    else
      var s := -ChunkScore(ts.head, depth, chunk, -beta, -alpha);
      ChunkCount(f, ts.head, depth, chunk, -beta, -alpha) +
      if Max(alpha, s) >= beta then PerCutoff(AsCounter(f), ts.tail.Nil?)
      else ChunkCountRest(f, ts.tail, depth, chunk, Max(alpha, s), beta)
  }

  /** Every chunk the search reaches fits into the allowed number of slots. */
  predicate ChunksFit(t: Tree, depth: nat, chunk: nat, alpha: int, beta: int, maxNodes: nat)
    decreases t, 1
  {
    if depth <= chunk then Below(t) == 0 || 1 + Below(t) <= maxNodes
    else t.Inner? ==> ChunksFitRest(t.kids, depth - 1, chunk, alpha, beta, maxNodes)
  }

  predicate ChunksFitRest(ts: Trees, depth: nat, chunk: nat, alpha: int, beta: int, maxNodes: nat)
    decreases ts, 0
  {
    ts.Cons? ==>
      var s := -ChunkScore(ts.head, depth, chunk, -beta, -alpha);
      && ChunksFit(ts.head, depth, chunk, -beta, -alpha, maxNodes)
      && (Max(alpha, s) < beta ==> ChunksFitRest(ts.tail, depth, chunk, Max(alpha, s), beta, maxNodes))
  }

  // ------------------------------------------------------------------ fail-soft contract

  lemma {:induction false} ChunkIsFailSoft(t: Tree, depth: nat, chunk: nat, alpha: int, beta: int)
    requires Sound(t) && alpha < beta
    ensures var r := ChunkScore(t, depth, chunk, alpha, beta);
            -INF < r < INF && FailSoft(r, Value(t), alpha, beta)
    decreases t, 1
  {
    ValueInRange(t);
    if depth > chunk && t.Inner? {
      ChunkRestIsFailSoft(t.kids, depth - 1, chunk, -INF, alpha, beta);
    }
  }

  lemma {:induction false} ChunkRestIsFailSoft(ts: Trees, depth: nat, chunk: nat, best: int, alpha: int, beta: int)
    requires AllSound(ts) && alpha < beta && -INF <= best < INF
    requires (-INF < best <= alpha) || (best == -INF && ts.Cons?)
    ensures var r := ChunkScoreRest(ts, depth, chunk, best, alpha, beta);
            -INF < r < INF && best <= r && FailSoft(r, Max(best, Best(ts)), alpha, beta)
    decreases ts, 0
  {
    if ts.Cons? {
      var r := ChunkScore(ts.head, depth, chunk, -beta, -alpha);
      ChunkIsFailSoft(ts.head, depth, chunk, -beta, -alpha);
      ValueInRange(ts.head);
      BestInRange(ts.tail);
      if Max(alpha, -r) < beta {
        ChunkRestIsFailSoft(ts.tail, depth, chunk, Max(best, -r), Max(alpha, -r), beta);
      }
    }
  }

  // ----------------------------------------------------------- serial <= chunked <= minimax

  lemma {:induction false} SerialIsCheaper(f: Field, t: Tree, depth: nat, chunk: nat, a: int, b: int, A: int, B: int)
    requires Sound(t) && !f.CutoffField? && -INF <= A <= a < b <= B <= INF
    ensures Count(AsCounter(f), t, a, b) <= ChunkCount(f, t, depth, chunk, A, B)
    decreases t, 1
  {
    if depth <= chunk {
      NarrowerIsCheaper(AsCounter(f), t, a, b, -INF, INF);
      if t.Inner? {
        RootSplitsCostMore(AsCounter(f), t);
      }
    } else if t.Inner? {
      SerialRestIsCheaper(f, t.kids, depth - 1, chunk, a, b, A, B);
    }
  }

  lemma {:induction false} SerialRestIsCheaper(f: Field, ts: Trees, depth: nat, chunk: nat,
                                               a: int, b: int, A: int, B: int)
    requires AllSound(ts) && !f.CutoffField? && -INF <= A <= a < b <= B <= INF
    ensures CountRest(AsCounter(f), ts, a, b) <= ChunkCountRest(f, ts, depth, chunk, A, B)
    decreases ts, 0
  {
    if ts.Cons? {
      SerialIsCheaper(f, ts.head, depth, chunk, -b, -a, -B, -A);
      var narrow, wide := -Score(ts.head, -b, -a), -ChunkScore(ts.head, depth, chunk, -B, -A);
      var first := ChunkCount(f, ts.head, depth, chunk, -B, -A);
      ChunkAlphaStaysBelow(ts.head, depth, chunk, a, b, A, B);
      if Max(a, narrow) < b {
        SerialRestIsCheaper(f, ts.tail, depth, chunk, Max(a, narrow), b, Max(A, wide), B);
        assert ChunkCountRest(f, ts, depth, chunk, A, B)
            == first + ChunkCountRest(f, ts.tail, depth, chunk, Max(A, wide), B);
      } else {
        assert CountRest(AsCounter(f), ts, a, b) == Count(AsCounter(f), ts.head, -b, -a);
      }
    }
  }

  lemma ChunkAlphaStaysBelow(t: Tree, depth: nat, chunk: nat, a: int, b: int, A: int, B: int)
    requires Sound(t) && A <= a < b <= B
    ensures var narrow, wide := -Score(t, -b, -a), -ChunkScore(t, depth, chunk, -B, -A);
            narrow < b ==> Max(A, wide) <= Max(a, narrow)
  {
    SearchIsFailSoft(t, -b, -a);
    ChunkIsFailSoft(t, depth, chunk, -B, -A);
  }

  lemma {:induction false} ChunksAreCheaper(f: Field, t: Tree, depth: nat, chunk: nat, alpha: int, beta: int)
    requires Sound(t) && !f.CutoffField?
    ensures ChunkCount(f, t, depth, chunk, alpha, beta) <= Size(AsCounter(f), t)
    decreases t, 1
  {
    if t.Inner? {
      if depth <= chunk {
        FrontierIsAtMostExhaustive(AsCounter(f), t, 1);
        OneLevelIsEach(AsCounter(f), t.kids);
      } else {
        ChunksRestAreCheaper(f, t.kids, depth - 1, chunk, alpha, beta);
      }
    }
  }

  lemma {:induction false} ChunksRestAreCheaper(f: Field, ts: Trees, depth: nat, chunk: nat, alpha: int, beta: int)
    requires AllSound(ts) && !f.CutoffField?
    ensures ChunkCountRest(f, ts, depth, chunk, alpha, beta) <= SizeRest(AsCounter(f), ts)
    decreases ts, 0
  {
    if ts.Cons? {
      var s := -ChunkScore(ts.head, depth, chunk, -beta, -alpha);
      ChunksAreCheaper(f, ts.head, depth, chunk, -beta, -alpha);
      ChunksRestAreCheaper(f, ts.tail, depth, chunk, Max(alpha, s), beta);
    }
  }

  // ------------------------------------------------------------------------ the methods

  /** Within a move loop: whether everything fits, the score, and what is still to be counted
      are down to the moves in `todo`. */
  ghost predicate ChunksOwed(todo: Trees, best: int, alpha: int, beta: int, depth: nat, chunk: nat, maxNodes: nat,
                             fits: bool, score: int, nodes: int, leaves: int, cutoffs: int)
  {
    && fits == ChunksFitRest(todo, depth, chunk, alpha, beta, maxNodes)
    && score == ChunkScoreRest(todo, depth, chunk, best, alpha, beta)
    && nodes == ChunkCountRest(NodeField, todo, depth, chunk, alpha, beta)
    && leaves == ChunkCountRest(LeafField, todo, depth, chunk, alpha, beta)
    && cutoffs == ChunkCountRest(CutoffField, todo, depth, chunk, alpha, beta)
  }

  lemma ChunkTurn(todo: Trees, best: int, alpha: int, beta: int, depth: nat, chunk: nat, maxNodes: nat,
                  fits: bool, score: int, nodes: int, leaves: int, cutoffs: int)
    requires ChunksOwed(todo, best, alpha, beta, depth, chunk, maxNodes, fits, score, nodes, leaves, cutoffs)
    ensures todo.Cons? ==>
      var s := -ChunkScore(todo.head, depth, chunk, -beta, -alpha);
      var n := nodes - ChunkCount(NodeField, todo.head, depth, chunk, -beta, -alpha);
      var l := leaves - ChunkCount(LeafField, todo.head, depth, chunk, -beta, -alpha);
      var c := cutoffs - ChunkCount(CutoffField, todo.head, depth, chunk, -beta, -alpha);
      if !ChunksFit(todo.head, depth, chunk, -beta, -alpha, maxNodes) then !fits
      else if Max(alpha, s) >= beta then
        ChunksOwed(Nil, Max(best, s), Max(alpha, s), beta, depth, chunk, maxNodes, fits, score, n, l, c - 1)
      else ChunksOwed(todo.tail, Max(best, s), Max(alpha, s), beta, depth, chunk, maxNodes, fits, score, n, l, c)
  {
  }

  /** None stands for the exception a chunk raises when it does not fit. */
  method ChunkedNegamax(g: Rules, board: Board, depth: nat, ply: int, alpha0: int, beta: int,
                        chunk: nat, maxNodes: nat, stats: Stats) returns (r: Option<int>)
    requires InRange(depth, ply) && 1 <= chunk <= MAX_GPU_DEPTH
    modifies board, stats
    ensures var t := GameTree(g, old(board.pos), depth, ply);
      && (r.Some? <==> ChunksFit(t, depth, chunk, alpha0, beta, maxNodes))
      && (r.Some? ==>
            && r.value == ChunkScore(t, depth, chunk, alpha0, beta)
            && stats.nodes == old(stats.nodes) + ChunkCount(NodeField, t, depth, chunk, alpha0, beta)
            && stats.leaves == old(stats.leaves) + ChunkCount(LeafField, t, depth, chunk, alpha0, beta)
            && stats.cutoffs == old(stats.cutoffs) + ChunkCount(CutoffField, t, depth, chunk, alpha0, beta))
    ensures r.Some? ==> board.pos == old(board.pos) && board.made == old(board.made)
    decreases depth, 2
  {
    if depth <= chunk {
      r := SearchChunk(g, board, depth, ply, maxNodes, stats);
      return;
    }
    stats.nodes := stats.nodes + 1;
    var moves := g.Moves(board.pos);
    if |moves| == 0 {
      stats.leaves := stats.leaves + 1;
      return Some(if g.InCheck(board.pos) then -MATE + ply else 0);
    }
    if g.Drawn(board.pos) {
      stats.leaves := stats.leaves + 1;
      return Some(0);
    }
    r := ChunkedMoves(g, board, moves, depth, ply, alpha0, beta, chunk, maxNodes, stats);
  }

  /** The move loop. */
  method ChunkedMoves(g: Rules, board: Board, moves: seq<Move>, depth: nat, ply: int, alpha0: int, beta: int,
                      chunk: nat, maxNodes: nat, stats: Stats) returns (r: Option<int>)
    requires InRange(depth, ply) && 1 <= chunk <= MAX_GPU_DEPTH && depth > 0 && moves == g.Moves(board.pos)
    modifies board, stats
    ensures var ts := Kids(g, old(board.pos), depth, ply, 0);
      && (r.Some? <==> ChunksFitRest(ts, depth - 1, chunk, alpha0, beta, maxNodes))
      && (r.Some? ==>
            && r.value == ChunkScoreRest(ts, depth - 1, chunk, -INF, alpha0, beta)
            && stats.nodes == old(stats.nodes) + ChunkCountRest(NodeField, ts, depth - 1, chunk, alpha0, beta)
            && stats.leaves == old(stats.leaves) + ChunkCountRest(LeafField, ts, depth - 1, chunk, alpha0, beta)
            && stats.cutoffs == old(stats.cutoffs) + ChunkCountRest(CutoffField, ts, depth - 1, chunk, alpha0, beta))
    ensures r.Some? ==> board.pos == old(board.pos) && board.made == old(board.made)
    decreases depth, 1
  {
    ghost var p, todo := board.pos, Kids(g, board.pos, depth, ply, 0);
    ghost var fits := ChunksFitRest(todo, depth - 1, chunk, alpha0, beta, maxNodes);
    ghost var score := ChunkScoreRest(todo, depth - 1, chunk, -INF, alpha0, beta);
    ghost var n := stats.nodes + ChunkCountRest(NodeField, todo, depth - 1, chunk, alpha0, beta);
    ghost var l := stats.leaves + ChunkCountRest(LeafField, todo, depth - 1, chunk, alpha0, beta);
    ghost var c := stats.cutoffs + ChunkCountRest(CutoffField, todo, depth - 1, chunk, alpha0, beta);
    var best, alpha := -INF, alpha0;
    for i := 0 to |moves|
      invariant board.pos == p && board.made == old(board.made)
      invariant todo == Kids(g, p, depth, ply, i)
      invariant ChunksOwed(todo, best, alpha, beta, depth - 1, chunk, maxNodes,
                           fits, score, n - stats.nodes, l - stats.leaves, c - stats.cutoffs)
    {
      ChunkTurn(todo, best, alpha, beta, depth - 1, chunk, maxNodes,
                fits, score, n - stats.nodes, l - stats.leaves, c - stats.cutoffs);
      var reply := PlayAndSearchChunked(g, board, moves[i], depth, ply, alpha, beta, chunk, maxNodes, stats);
      if reply.None? {
        return None;
      }
      best := Max(best, reply.value);
      alpha := Max(alpha, reply.value);
      if alpha >= beta {
        stats.cutoffs := stats.cutoffs + 1;
        break;
      }
      todo := todo.tail;
    }
    r := Some(best);
  }

  method PlayAndSearchChunked(g: Rules, board: Board, move: Move, depth: nat, ply: int, alpha: int, beta: int,
                              chunk: nat, maxNodes: nat, stats: Stats) returns (r: Option<int>)
    requires InRange(depth, ply) && 1 <= chunk <= MAX_GPU_DEPTH && depth > 0
    modifies board, stats
    ensures var t := GameTree(g, g.Play(old(board.pos), move), depth - 1, ply + 1);
      && (r.Some? <==> ChunksFit(t, depth - 1, chunk, -beta, -alpha, maxNodes))
      && (r.Some? ==>
            && r.value == -ChunkScore(t, depth - 1, chunk, -beta, -alpha)
            && stats.nodes == old(stats.nodes) + ChunkCount(NodeField, t, depth - 1, chunk, -beta, -alpha)
            && stats.leaves == old(stats.leaves) + ChunkCount(LeafField, t, depth - 1, chunk, -beta, -alpha)
            && stats.cutoffs == old(stats.cutoffs) + ChunkCount(CutoffField, t, depth - 1, chunk, -beta, -alpha))
    ensures r.Some? ==> board.pos == old(board.pos) && board.made == old(board.made)
    decreases depth, 0
  {
    board.MakeMove(g, move);
    r := ChunkedNegamax(g, board, depth - 1, ply + 1, -beta, -alpha, chunk, maxNodes, stats);
    if r.Some? {
      board.UnmakeMove(move);
      r := Some(-r.value);
    }
  }

  /** Builds the chunk below the board's position and searches it on the device. */
  method SearchChunk(g: Rules, board: Board, depth: nat, ply: int, maxNodes: nat, stats: Stats)
    returns (r: Option<int>)
    requires InRange(depth, ply) && depth <= MAX_GPU_DEPTH
    modifies board, stats
    ensures var t := GameTree(g, old(board.pos), depth, ply);
      && (r.Some? <==> Below(t) == 0 || 1 + Below(t) <= maxNodes)
      && (r.Some? ==>
            && r.value == Value(t)
            && stats.nodes == old(stats.nodes) + WholeChunk(NodeField, t)
            && stats.leaves == old(stats.leaves) + WholeChunk(LeafField, t)
            && stats.cutoffs == old(stats.cutoffs) + WholeChunk(CutoffField, t))
    ensures r.Some? ==> board.pos == old(board.pos) && board.made == old(board.made)
  {
    ghost var t := GameTree(g, board.pos, depth, ply);
    var tree := new FlatTree(1);
    var ok := tree.BuildNode(g, 0, board, depth, ply, maxNodes);
    if !ok {
      return None;
    }
    var m := Store(tree.nodes, tree.leaves);
    GameTreeIsSound(g, old(board.pos), depth, ply);
    GameTreeHeight(g, old(board.pos), depth, ply);
    var best, nodes, leaves, cutoffs := ChunkOnDevice(m, t);
    stats.nodes := stats.nodes + nodes;
    stats.leaves := stats.leaves + leaves;
    stats.cutoffs := stats.cutoffs + cutoffs;
    r := Some(best);
  }

  method ChunkOnDevice(m: Store, ghost t: Tree) returns (best: int, nodes: nat, leaves: nat, cutoffs: nat)
    requires Sound(t) && Height(t) <= MAX_GPU_DEPTH
    requires |m.nodes| == 1 + Below(t) && Shown(m.nodes, m.leaves, 0, 1, 0, t)
    ensures best == Value(t)
    ensures nodes == WholeChunk(NodeField, t)
    ensures leaves == WholeChunk(LeafField, t)
    ensures cutoffs == WholeChunk(CutoffField, t)
  {
    OneRoot(m, t);
    var root := m.nodes[0];
    assert SlotLinked(m.nodes, m.leaves, 0);
    best := -INF;
    if root.childCount == 0 {
      var value, visited, leafVisits, early, _ := DeviceSearch(m, 0);
      best, nodes, leaves, cutoffs := Max(best, value), visited, leafVisits, early;
    } else {
      var outs := KidsOnDevice(m, root.firstChild, root.childCount, t.kids);
      best := BestScore(outs, t.kids);
      nodes, leaves, cutoffs := AddUp(outs);
      nodes := nodes + 1;
    }
  }

  method BestScore(outs: seq<Outcome>, ghost kids: Trees) returns (best: int)
    requires AllSound(kids) && kids.Cons? && |outs| == Length(kids)
    requires forall i | 0 <= i < |outs| :: outs[i] == OnDevice(Nth(kids, i), true)
    ensures best == Best(kids)
  {
    best := -INF;
    for i := 0 to |outs|
      invariant forall j | 0 <= j < i :: -Value(Nth(kids, j)) <= best
      invariant if i == 0 then best == -INF else exists j | 0 <= j < i :: -Value(Nth(kids, j)) == best
    {
      NthIsSound(kids, i);
      FullIsExact(Nth(kids, i));
      ValueInRange(Nth(kids, i));
      assert outs[i].score == -Value(Nth(kids, i));
      best := Max(best, outs[i].score);
    }
    BestIsMaximum(kids);
  }

  lemma OneRoot(m: Store, t: Tree)
    requires |m.nodes| == 1 + Below(t) && Shown(m.nodes, m.leaves, 0, 1, 0, t)
    ensures m.Valid() && Decode(m.nodes, m.leaves, 0) == t
  {
    SingleRoot(m.nodes, m.leaves, t);
    BuiltForest(m.nodes, m.leaves, Cons(t, Nil));
  }

  // -------------------------------------------------------------------------- the root

  /** What the chunked search of the root counts. */
  function RootChunkCount(f: Field, t: Tree, depth: nat, chunk: nat): nat
    requires depth > 0
  {
    if t.Inner? then PerNode(AsCounter(f)) + ChunkCountRest(f, t.kids, depth - 1, chunk, -INF, INF)
    else FullCount(AsCounter(f), t)
  }

  /** The host's alpha-beta above the chunks loses pruning, but not below exhaustive search. */
  lemma ChunkedWorkOrdering(f: Field, g: Rules, p: Position, depth: nat, chunk: nat)
    requires InRange(depth, 0) && depth > 0 && !f.CutoffField?
    ensures var t := RootTree(g, p, depth);
      FullCount(AsCounter(f), t) <= RootChunkCount(f, t, depth, chunk) <= Size(AsCounter(f), t)
  {
    var t := RootTree(g, p, depth);
    GameTreeIsSound(g, p, depth, 0);
    if t.Inner? {
      SerialRestIsCheaper(f, t.kids, depth - 1, chunk, -INF, INF, -INF, INF);
      ChunksRestAreCheaper(f, t.kids, depth - 1, chunk, -INF, INF);
    }
  }

  method ChunkedSearch(g: Rules, initial: Position, moves: seq<Move>, depth: nat, chunk: nat, maxNodes: nat,
                       requireDevice: bool, onDevice: bool) returns (a: Answer)
    requires moves == g.Moves(initial) && depth > 0 && InRange(depth, 0) && 1 <= chunk <= MAX_GPU_DEPTH
    ensures a.Refused? <==>
      if g.Over(initial) then requireDevice
      else
        || (requireDevice && !onDevice)
        || !ChunksFitRest(Kids(g, initial, depth, 0, 0), depth - 1, chunk, -INF, INF, maxNodes)
    ensures a.Refused? ==>
      a.reason == (if g.Over(initial) then NothingToOffload
                   else if requireDevice && !onDevice then NotOnDevice
                   else TooLarge)
    ensures a.Found? ==>
      var t, r := RootTree(g, initial, depth), a.result;
      && Answers(t, r.score, r.moveIndex)
      && r.nodes == RootChunkCount(NodeField, t, depth, chunk)
      && r.leaves == RootChunkCount(LeafField, t, depth, chunk)
      && r.cutoffs == RootChunkCount(CutoffField, t, depth, chunk)
  {
    if |moves| == 0 || g.Drawn(initial) {
      if requireDevice {
        return Refused(NothingToOffload);
      }
      var r := SerialSearch(g, initial, moves, depth, true);
      return Found(r);
    }
    if requireDevice && !onDevice {
      return Refused(NotOnDevice);
    }
    a := ChunkedLoop(g, initial, moves, depth, chunk, maxNodes);
  }

  method ChunkedLoop(g: Rules, initial: Position, moves: seq<Move>, depth: nat, chunk: nat, maxNodes: nat)
    returns (a: Answer)
    requires moves == g.Moves(initial) && depth > 0 && InRange(depth, 0) && 1 <= chunk <= MAX_GPU_DEPTH
    requires !g.Over(initial)
    ensures a.Found? <==> ChunksFitRest(Kids(g, initial, depth, 0, 0), depth - 1, chunk, -INF, INF, maxNodes)
    ensures a.Refused? ==> a.reason == TooLarge
    ensures a.Found? ==>
      var t, r := RootTree(g, initial, depth), a.result;
      && Answers(t, r.score, r.moveIndex)
      && r.nodes == RootChunkCount(NodeField, t, depth, chunk)
      && r.leaves == RootChunkCount(LeafField, t, depth, chunk)
      && r.cutoffs == RootChunkCount(CutoffField, t, depth, chunk)
  {
    RootIsSound(g, initial, depth);
    ghost var kids := Kids(g, initial, depth, 0, 0);
    ghost var todo := kids;
    ghost var fits := ChunksFitRest(kids, depth - 1, chunk, -INF, INF, maxNodes);
    ghost var n := 1 + ChunkCountRest(NodeField, kids, depth - 1, chunk, -INF, INF);
    ghost var l := ChunkCountRest(LeafField, kids, depth - 1, chunk, -INF, INF);
    ghost var c := ChunkCountRest(CutoffField, kids, depth - 1, chunk, -INF, INF);
    var stats := new Stats();
    stats.nodes := 1;
    var score, moveIndex, alpha := -INF, -1, -INF;
    for i := 0 to |moves|
      invariant todo == Kids(g, initial, depth, 0, i) && alpha == score
      invariant RootMidway(kids, i, todo, depth - 1, chunk, maxNodes, score, moveIndex,
                           fits, n - stats.nodes, l - stats.leaves, c - stats.cutoffs)
    {
      NthKid(g, initial, depth, 0, 0, i);
      var reply := SearchRootMoveChunked(g, initial, moves[i], depth, -alpha, chunk, maxNodes, stats,
                                         kids, i, todo, score, moveIndex, fits, n, l, c);
      if reply.None? {
        return Refused(TooLarge);
      }
      var s := reply.value;
      if s > score {
        score, moveIndex := s, i;
      }
      alpha := Max(alpha, s);
      todo := todo.tail;
    }
    SelectDone(kids, score, moveIndex);
    a := Found(Result(score, moveIndex, stats.nodes, stats.leaves, stats.cutoffs));
  }

  /** The root loop before move `i`; alpha is the best score so far. */
  ghost predicate RootMidway(kids: Trees, i: nat, todo: Trees, depth: nat, chunk: nat, maxNodes: nat,
                             score: int, moveIndex: int, fits: bool, nodes: int, leaves: int, cutoffs: int)
  {
    && i <= Length(kids) && BestSoFar(kids, i, score, moveIndex) && -INF <= score < INF
    && AllSound(todo) && Length(todo) == Length(kids) - i
    && fits == ChunksFitRest(todo, depth, chunk, score, INF, maxNodes)
    && nodes == ChunkCountRest(NodeField, todo, depth, chunk, score, INF)
    && leaves == ChunkCountRest(LeafField, todo, depth, chunk, score, INF)
    && cutoffs == ChunkCountRest(CutoffField, todo, depth, chunk, score, INF)
  }

  lemma RootTurn(kids: Trees, i: nat, todo: Trees, depth: nat, chunk: nat, maxNodes: nat,
                 score: int, moveIndex: int, fits: bool, nodes: int, leaves: int, cutoffs: int)
    requires RootMidway(kids, i, todo, depth, chunk, maxNodes, score, moveIndex, fits, nodes, leaves, cutoffs)
    requires i < Length(kids) && todo.Cons? && Nth(kids, i) == todo.head
    ensures var t, s := todo.head, -ChunkScore(todo.head, depth, chunk, -INF, -score);
      if !ChunksFit(t, depth, chunk, -INF, -score, maxNodes) then !fits
      else
        RootMidway(kids, i + 1, todo.tail, depth, chunk, maxNodes, Max(score, s), if s > score then i else moveIndex,
                   fits,
                   nodes - ChunkCount(NodeField, t, depth, chunk, -INF, -score),
                   leaves - ChunkCount(LeafField, t, depth, chunk, -INF, -score),
                   cutoffs - ChunkCount(CutoffField, t, depth, chunk, -INF, -score))
  {
    var s := -ChunkScore(todo.head, depth, chunk, -INF, -score);
    ChunkExactWhenBetter(todo.head, depth, chunk, score, s);
    SelectStep(kids, i, score, moveIndex, s);
  }

  lemma ChunkExactWhenBetter(t: Tree, depth: nat, chunk: nat, best: int, s: int)
    requires Sound(t) && -INF <= best < INF && s == -ChunkScore(t, depth, chunk, -INF, -best)
    ensures GoodEnough(s, -Value(t), best) && s < INF
  {
    ChunkIsFailSoft(t, depth, chunk, -INF, -best);
  }

  /** One turn of the root loop. */
  method SearchRootMoveChunked(g: Rules, initial: Position, move: Move, depth: nat, beta: int,
                               chunk: nat, maxNodes: nat, stats: Stats, ghost kids: Trees, ghost i: nat,
                               ghost todo: Trees, ghost score: int, ghost moveIndex: int,
                               ghost fits: bool, ghost n: int, ghost l: int, ghost c: int) returns (r: Option<int>)
    requires InRange(depth, 0) && depth > 0 && 1 <= chunk <= MAX_GPU_DEPTH && beta == -score
    requires RootMidway(kids, i, todo, depth - 1, chunk, maxNodes, score, moveIndex,
                        fits, n - stats.nodes, l - stats.leaves, c - stats.cutoffs)
    requires i < Length(kids) && todo.Cons? && Nth(kids, i) == todo.head
    requires todo.head == GameTree(g, g.Play(initial, move), depth - 1, 1)
    modifies stats
    ensures r.None? ==> !fits
    ensures r.Some? ==>
      RootMidway(kids, i + 1, todo.tail, depth - 1, chunk, maxNodes, Max(score, r.value),
                 if r.value > score then i else moveIndex,
                 fits, n - stats.nodes, l - stats.leaves, c - stats.cutoffs)
  {
    RootTurn(kids, i, todo, depth - 1, chunk, maxNodes, score, moveIndex,
             fits, n - stats.nodes, l - stats.leaves, c - stats.cutoffs);
    r := PlayRootMove(g, initial, move, depth, beta, chunk, maxNodes, stats);
  }

  /** Plays a root move on a copy of the board and searches it. */
  method PlayRootMove(g: Rules, initial: Position, move: Move, depth: nat, beta: int,
                      chunk: nat, maxNodes: nat, stats: Stats) returns (r: Option<int>)
    requires InRange(depth, 0) && depth > 0 && 1 <= chunk <= MAX_GPU_DEPTH
    modifies stats
    ensures var t := GameTree(g, g.Play(initial, move), depth - 1, 1);
      && (r.Some? <==> ChunksFit(t, depth - 1, chunk, -INF, beta, maxNodes))
      && (r.Some? ==>
            && r.value == -ChunkScore(t, depth - 1, chunk, -INF, beta)
            && stats.nodes == old(stats.nodes) + ChunkCount(NodeField, t, depth - 1, chunk, -INF, beta)
            && stats.leaves == old(stats.leaves) + ChunkCount(LeafField, t, depth - 1, chunk, -INF, beta)
            && stats.cutoffs == old(stats.cutoffs) + ChunkCount(CutoffField, t, depth - 1, chunk, -INF, beta))
  {
    var board := new Board(initial);
    board.MakeMove(g, move);
    r := ChunkedNegamax(g, board, depth - 1, 1, -INF, beta, chunk, maxNodes, stats);
    if r.Some? {
      r := Some(-r.value);
    }
  }
}
