/** What the counters of a search say about the tree it was run on. */
module Counting {
  import opened Chess
  import opened AlphaBeta
  import opened Windows
  import opened FlatTree

  // ---------------------------------------------------------------- exhaustive counts

  /** Positions that end the search: mates, draws and the horizon. */
  function Ends(t: Tree): nat {
    if t.Inner? then EndsOfAll(t.kids) else 1
  }

  function EndsOfAll(ts: Trees): nat {
    if ts.Nil? then 0 else Ends(ts.head) + EndsOfAll(ts.tail)
  }

  /** Without pruning: a node for each slot of the flat tree, a leaf for each end, no cutoff. */
  lemma {:induction false} SizeIsWholeTree(t: Tree)
    ensures Size(Nodes, t) == 1 + Below(t)
    ensures Size(Leaves, t) == Ends(t)
    ensures Size(Cutoffs, t) == Size(Early, t) == Size(Late, t) == 0
    decreases t, 1
  {
    if t.Inner? {
      SizeIsWholeForest(t.kids);
    }
  }

  lemma {:induction false} SizeIsWholeForest(ts: Trees)
    ensures SizeRest(Nodes, ts) == Length(ts) + BelowAll(ts)
    ensures SizeRest(Leaves, ts) == EndsOfAll(ts)
    ensures SizeRest(Cutoffs, ts) == SizeRest(Early, ts) == SizeRest(Late, ts) == 0
    decreases ts, 0
  {
    if ts.Cons? {
      SizeIsWholeTree(ts.head);
      SizeIsWholeForest(ts.tail);
    }
  }

  // ------------------------------------------------------------------------ cutoffs

  /** The visited inner nodes that return at least their beta. */
  function FailHighs(t: Tree, alpha: int, beta: int): nat {
    if !t.Inner? then 0
    else (if Score(t, alpha, beta) >= beta then 1 else 0) + FailHighsBelow(t.kids, alpha, beta)
  }

  /** Those below the moves that are searched: all moves up to the first that reaches beta. */
  function FailHighsBelow(ts: Trees, alpha: int, beta: int): nat {
    if ts.Nil? then 0
    else
      var s := -Score(ts.head, -beta, -alpha);
      FailHighs(ts.head, -beta, -alpha) + if s >= beta then 0 else FailHighsBelow(ts.tail, Max(alpha, s), beta)
  }

  /** A search counts one cutoff for each of them. */
  lemma {:induction false} CutoffsAreFailHighs(t: Tree, alpha: int, beta: int)
    requires Sound(t) && -INF <= alpha < beta <= INF
    ensures Count(Cutoffs, t, alpha, beta) == FailHighs(t, alpha, beta)
    decreases t, 1
  {
    if t.Inner? {
      CutoffsBelow(t.kids, -INF, alpha, beta);
    }
  }

  lemma {:induction false} CutoffsBelow(ts: Trees, best: int, alpha: int, beta: int)
    requires AllSound(ts) && -INF <= alpha < beta <= INF && best <= alpha
    ensures CountRest(Cutoffs, ts, alpha, beta) ==
      FailHighsBelow(ts, alpha, beta) + if ScoreRest(ts, best, alpha, beta) >= beta then 1 else 0
    decreases ts, 0
  {
    if ts.Cons? {
      var s := -Score(ts.head, -beta, -alpha);
      CutoffsAreFailHighs(ts.head, -beta, -alpha);
      if Max(alpha, s) < beta {
        CutoffsBelow(ts.tail, Max(best, s), Max(alpha, s), beta);
      }
    }
  }

  /** Early cutoffs are what makes a search skip anything, and each skips a node or more. */
  lemma {:induction false} EarlyCutoffsSkip(t: Tree, alpha: int, beta: int)
    ensures Count(Early, t, alpha, beta) + Count(Nodes, t, alpha, beta) <= Size(Nodes, t)
    ensures Count(Early, t, alpha, beta) == 0 <==> Count(Nodes, t, alpha, beta) == Size(Nodes, t)
    decreases t, 1
  {
    if t.Inner? {
      EarlyCutoffsSkipBelow(t.kids, alpha, beta);
    }
  }

  lemma {:induction false} EarlyCutoffsSkipBelow(ts: Trees, alpha: int, beta: int)
    ensures CountRest(Early, ts, alpha, beta) + CountRest(Nodes, ts, alpha, beta) <= SizeRest(Nodes, ts)
    ensures CountRest(Early, ts, alpha, beta) == 0 <==> CountRest(Nodes, ts, alpha, beta) == SizeRest(Nodes, ts)
    decreases ts, 0
  {
    if ts.Cons? {
      var s := -Score(ts.head, -beta, -alpha);
      EarlyCutoffsSkip(ts.head, -beta, -alpha);
      if Max(alpha, s) < beta {
        EarlyCutoffsSkipBelow(ts.tail, Max(alpha, s), beta);
      } else {
        NodesInForest(ts.tail);
        assert CountRest(Early, ts, alpha, beta) ==
          Count(Early, ts.head, -beta, -alpha) + if ts.tail.Cons? then 1 else 0;
        assert CountRest(Nodes, ts, alpha, beta) == Count(Nodes, ts.head, -beta, -alpha);
      }
    }
  }

  lemma NodesInForest(ts: Trees)
    ensures SizeRest(Nodes, ts) > 0 <==> ts.Cons?
  {
  }

  /** The same for moves that are searched one by one. */
  lemma {:induction false} EachEarlySkips(ts: Trees, beta: int)
    ensures EachCount(Early, ts, beta) + EachCount(Nodes, ts, beta) <= SizeRest(Nodes, ts)
    ensures EachCount(Early, ts, beta) == 0 <==> EachCount(Nodes, ts, beta) == SizeRest(Nodes, ts)
  {
    if ts.Cons? {
      EarlyCutoffsSkip(ts.head, -INF, beta);
      EachEarlySkips(ts.tail, beta);
    }
  }

  // ------------------------------------------------------------------------- scores

  /** A score that some line of play ends with, from the side to move's point of view. */
  predicate Reached(t: Tree, s: int) {
    if t.Inner? then ReachedByMove(t.kids, s) else s == LeafScore(t)
  }

  predicate ReachedByMove(ts: Trees, s: int) {
    ts.Cons? && (Reached(ts.head, -s) || ReachedByMove(ts.tail, s))
  }

  /** Inside and outside the window, a search returns the score of a leaf, and so does minimax. */
  lemma {:induction false} ScoreIsReached(t: Tree, alpha: int, beta: int)
    requires Sound(t) && alpha < beta
    ensures Reached(t, Score(t, alpha, beta))
    decreases t, 1
  {
    if t.Inner? {
      ScoreIsReachedBelow(t.kids, -INF, alpha, beta);
    }
  }

  lemma {:induction false} ScoreIsReachedBelow(ts: Trees, best: int, alpha: int, beta: int)
    requires AllSound(ts) && alpha < beta && -INF <= best
    ensures var r := ScoreRest(ts, best, alpha, beta);
      (r == best && (best == -INF ==> ts.Nil?)) || ReachedByMove(ts, r)
    decreases ts, 0
  {
    if ts.Cons? {
      var s := -Score(ts.head, -beta, -alpha);
      SearchIsFailSoft(ts.head, -beta, -alpha);
      ScoreIsReached(ts.head, -beta, -alpha);
      if Max(alpha, s) < beta {
        ScoreIsReachedBelow(ts.tail, Max(best, s), Max(alpha, s), beta);
      }
    }
  }

  // ---------------------------------------------------------------------- the seed

  /** When the first move is best, its score is the bound that serial search keeps: both do
      the same work, in every counter. */
  lemma SeededIsSerial(c: Counter, t: Tree)
    requires Sound(t) && t.Inner? && Best(t.kids) == -Value(t.kids.head)
    ensures SeededCount(c, t) == FullCount(c, t)
  {
    var first := t.kids.head;
    RootCount(c, t);
    FullIsExact(first);
    ValueInRange(first);
    SameBound(c, t.kids.tail, -Value(first));
  }

  lemma {:induction false} SameBound(c: Counter, ts: Trees, alpha: int)
    requires AllSound(ts) && -INF < alpha < INF && Best(ts) <= alpha
    ensures CountRest(c, ts, alpha, INF) == EachCount(c, ts, -alpha)
  {
    if ts.Cons? {
      SearchIsFailSoft(ts.head, -INF, -alpha);
      SameBound(c, ts.tail, alpha);
    }
  }
}
