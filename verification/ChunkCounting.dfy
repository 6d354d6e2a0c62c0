/** What the counters of the chunked search say about the tree it was run on. */
module ChunkCounting {
  import opened Chess
  import opened AlphaBeta
  import opened Windows
  import opened Counting
  import opened Schedule
  import opened Gpu
  import opened Chunked

  /** Inside a chunk: no cutoff exactly when nothing is skipped. */
  lemma WholeChunkCutoffs(t: Tree)
    ensures WholeChunk(CutoffField, t) + WholeChunk(NodeField, t) <= Size(Nodes, t)
    ensures WholeChunk(CutoffField, t) == 0 <==> WholeChunk(NodeField, t) == Size(Nodes, t)
  {
    if t.Inner? {
      EachEarlySkips(t.kids, INF);
    }
  }

  /** The host's cutoffs are its nodes that return at least their beta; to these the chunks add
      theirs. */
  function ChunkFailHighs(t: Tree, depth: nat, chunk: nat, alpha: int, beta: int): nat
    decreases t, 1
  {
    if depth <= chunk then (if t.Inner? then EachCount(Early, t.kids, INF) else 0)
    else if t.Inner? then
      (if ChunkScore(t, depth, chunk, alpha, beta) >= beta then 1 else 0)
      + ChunkFailHighsBelow(t.kids, depth - 1, chunk, alpha, beta)
    else 0
  }

  function ChunkFailHighsBelow(ts: Trees, depth: nat, chunk: nat, alpha: int, beta: int): nat
    decreases ts, 0
  {
    if ts.Nil? then 0
    else
      var s := -ChunkScore(ts.head, depth, chunk, -beta, -alpha);
      ChunkFailHighs(ts.head, depth, chunk, -beta, -alpha)
      + if s >= beta then 0 else ChunkFailHighsBelow(ts.tail, depth, chunk, Max(alpha, s), beta)
  }

  lemma {:induction false} ChunkCutoffsAreFailHighs(t: Tree, depth: nat, chunk: nat, alpha: int, beta: int)
    requires Sound(t) && -INF <= alpha < beta <= INF
    ensures ChunkCount(CutoffField, t, depth, chunk, alpha, beta) == ChunkFailHighs(t, depth, chunk, alpha, beta)
    decreases t, 1
  {
    if t.Inner? && depth > chunk {
      ChunkCutoffsBelow(t.kids, depth - 1, chunk, -INF, alpha, beta);
    }
  }

  lemma {:induction false} ChunkCutoffsBelow(ts: Trees, depth: nat, chunk: nat, best: int, alpha: int, beta: int)
    requires AllSound(ts) && -INF <= alpha < beta <= INF && best <= alpha
    ensures ChunkCountRest(CutoffField, ts, depth, chunk, alpha, beta) ==
      ChunkFailHighsBelow(ts, depth, chunk, alpha, beta)
      + if ChunkScoreRest(ts, depth, chunk, best, alpha, beta) >= beta then 1 else 0
    decreases ts, 0
  {
    if ts.Cons? {
      var s := -ChunkScore(ts.head, depth, chunk, -beta, -alpha);
      ChunkCutoffsAreFailHighs(ts.head, depth, chunk, -beta, -alpha);
      if Max(alpha, s) < beta {
        ChunkCutoffsBelow(ts.tail, depth, chunk, Max(best, s), Max(alpha, s), beta);
      }
    }
  }

  /** A search without cutoffs has skipped nothing. */
  lemma {:induction false} NoCutoffNoSkip(t: Tree, depth: nat, chunk: nat, alpha: int, beta: int)
    requires ChunkCount(CutoffField, t, depth, chunk, alpha, beta) == 0
    ensures ChunkCount(NodeField, t, depth, chunk, alpha, beta) == Size(Nodes, t)
    decreases t, 1
  {
    if depth <= chunk {
      WholeChunkCutoffs(t);
    } else if t.Inner? {
      NoCutoffNoSkipBelow(t.kids, depth - 1, chunk, alpha, beta);
    }
  }

  lemma {:induction false} NoCutoffNoSkipBelow(ts: Trees, depth: nat, chunk: nat, alpha: int, beta: int)
    requires ChunkCountRest(CutoffField, ts, depth, chunk, alpha, beta) == 0
    ensures ChunkCountRest(NodeField, ts, depth, chunk, alpha, beta) == SizeRest(Nodes, ts)
    decreases ts, 0
  {
    if ts.Cons? {
      var s := -ChunkScore(ts.head, depth, chunk, -beta, -alpha);
      HeadIsCounted(CutoffField, ts, depth, chunk, alpha, beta);
      HeadIsCounted(NodeField, ts, depth, chunk, alpha, beta);
      NoCutoffNoSkip(ts.head, depth, chunk, -beta, -alpha);
      NoCutoffNoSkipBelow(ts.tail, depth, chunk, Max(alpha, s), beta);
    }
  }

  lemma HeadIsCounted(f: Field, ts: Trees, depth: nat, chunk: nat, alpha: int, beta: int)
    requires ts.Cons?
    ensures var a := Max(alpha, -ChunkScore(ts.head, depth, chunk, -beta, -alpha));
      ChunkCountRest(f, ts, depth, chunk, alpha, beta) ==
        ChunkCount(f, ts.head, depth, chunk, -beta, -alpha)
        + if a < beta then ChunkCountRest(f, ts.tail, depth, chunk, a, beta) else if f.CutoffField? then 1 else 0
  {
  }

  lemma RootWithoutCutoffs(t: Tree, depth: nat, chunk: nat)
    requires depth > 0 && RootChunkCount(CutoffField, t, depth, chunk) == 0
    ensures RootChunkCount(NodeField, t, depth, chunk) == Size(Nodes, t)
  {
    if t.Inner? {
      NoCutoffNoSkipBelow(t.kids, depth - 1, chunk, -INF, INF);
    }
  }

  /** When every move of the root is a whole chunk, the device does what a frontier of two
      levels does, in every counter. */
  lemma ChunksRightBelowRoot(f: Field, t: Tree, depth: nat, chunk: nat)
    requires Sound(t) && 0 < depth <= chunk + 1
    ensures RootChunkCount(f, t, depth, chunk) == FrontierCount(DeviceCounter(f), t, 2)
  {
    if t.Inner? {
      EachChunkIsWhole(f, t.kids, depth - 1, chunk, -INF);
    }
  }

  lemma {:induction false} EachChunkIsWhole(f: Field, ts: Trees, depth: nat, chunk: nat, alpha: int)
    requires AllSound(ts) && depth <= chunk && -INF <= alpha < INF
    ensures ChunkCountRest(f, ts, depth, chunk, alpha, INF) == FrontierCountRest(DeviceCounter(f), ts, 1)
  {
    if ts.Cons? {
      ValueInRange(ts.head);
      if ts.head.Inner? {
        OneLevelIsEach(DeviceCounter(f), ts.head.kids);
      }
      EachChunkIsWhole(f, ts.tail, depth, chunk, Max(alpha, -Value(ts.head)));
    }
  }
}
