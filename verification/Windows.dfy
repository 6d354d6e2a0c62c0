/** How much work each way of splitting the search does: every split is dearer than the serial search. */
module Windows {
  import opened Chess
  import opened AlphaBeta

  predicate Counts(c: Counter) {
    c.Nodes? || c.Leaves?
  }

  lemma {:induction false} NarrowerIsCheaper(c: Counter, t: Tree, a: int, b: int, A: int, B: int)
    requires Sound(t) && Counts(c) && A <= a < b <= B
    ensures Count(c, t, a, b) <= Count(c, t, A, B)
  {
    if t.Inner? {
      RestNarrowerIsCheaper(c, t.kids, a, b, A, B);
    }
  }

  /** The wide search's alpha never overtakes the narrow one's: a score that raises the
      wide alpha is at most the true value, and the narrow search has already seen that. */
  lemma WideAlphaStaysBelow(t: Tree, a: int, b: int, A: int, B: int)
    requires Sound(t) && A <= a < b <= B
    ensures var narrow, wide := -Score(t, -b, -a), -Score(t, -B, -A);
            narrow < b ==> Max(A, wide) <= Max(a, narrow)
  {
    SearchIsFailSoft(t, -b, -a);
    SearchIsFailSoft(t, -B, -A);
  }

  lemma {:induction false} RestNarrowerIsCheaper(c: Counter, ts: Trees, a: int, b: int, A: int, B: int)
    requires AllSound(ts) && Counts(c) && A <= a < b <= B
    ensures CountRest(c, ts, a, b) <= CountRest(c, ts, A, B)
  {
    if ts.Cons? {
      NarrowerIsCheaper(c, ts.head, -b, -a, -B, -A);
      WideAlphaStaysBelow(ts.head, a, b, A, B);
      var narrow, wide := -Score(ts.head, -b, -a), -Score(ts.head, -B, -A);
      if Max(a, narrow) < b {
        RestNarrowerIsCheaper(c, ts.tail, Max(a, narrow), b, Max(A, wide), B);
      }
    }
  }

  lemma {:induction false} PruningNeverCosts(c: Counter, t: Tree, alpha: int, beta: int)
    requires Counts(c)
    ensures Count(c, t, alpha, beta) <= Size(c, t)
  {
    if t.Inner? {
      PruningNeverCostsRest(c, t.kids, alpha, beta);
    }
  }

  lemma {:induction false} PruningNeverCostsRest(c: Counter, ts: Trees, alpha: int, beta: int)
    requires Counts(c)
    ensures CountRest(c, ts, alpha, beta) <= SizeRest(c, ts)
  {
    if ts.Cons? {
      var s := -Score(ts.head, -beta, -alpha);
      PruningNeverCosts(c, ts.head, -beta, -alpha);
      PruningNeverCostsRest(c, ts.tail, Max(alpha, s), beta);
    }
  }

  // ------------------------------------------------------------ ways to split the search

  /** Every move searched alone with upper bound `beta`. */
  function EachCount(c: Counter, ts: Trees, beta: int): nat {
    if ts.Nil? then 0 else Count(c, ts.head, -INF, beta) + EachCount(c, ts.tail, beta)
  }

  /** The seeded root: the first move exactly, the others against its score. */
  function SeededCount(c: Counter, t: Tree): nat
    requires t.Inner? && t.kids.Cons?
  {
    PerNode(c) + FullCount(c, t.kids.head) +
    EachCount(c, t.kids.tail, Score(t.kids.head, -INF, INF))
  }

  /** A frontier `levels` deep, every frontier position searched alone over the whole range. */
  function FrontierCount(c: Counter, t: Tree, levels: nat): nat
    decreases t, 1
  {
    if levels == 0 || !t.Inner? then FullCount(c, t)
    else PerNode(c) + FrontierCountRest(c, t.kids, levels - 1)
  }

  function FrontierCountRest(c: Counter, ts: Trees, levels: nat): nat
    decreases ts, 0
  {
    if ts.Nil? then 0 else FrontierCount(c, ts.head, levels) + FrontierCountRest(c, ts.tail, levels)
  }

  /** Nothing is cut at the root: its first move is searched over the whole range, the
      others against the first move's value. */
  lemma RootCount(c: Counter, t: Tree)
    requires Sound(t) && t.Inner?
    ensures FullCount(c, t) == PerNode(c) + FullCount(c, t.kids.head)
                               + CountRest(c, t.kids.tail, -Value(t.kids.head), INF)
  {
    var first := t.kids.head;
    FullIsExact(first);
    ValueInRange(first);
    assert CountRest(c, t.kids, -INF, INF)
        == Count(c, first, -INF, INF) + CountRest(c, t.kids.tail, Max(-INF, -Score(first, -INF, INF)), INF);
  }

  /** serial <= seeded root <= full-window root split = frontier of one level. */
  lemma RootSplitsCostMore(c: Counter, t: Tree)
    requires Sound(t) && Counts(c) && t.Inner?
    ensures FullCount(c, t) <= SeededCount(c, t) <= FrontierCount(c, t, 1)
    ensures FrontierCount(c, t, 1) == PerNode(c) + EachCount(c, t.kids, INF)
  {
    var first := t.kids.head;
    SearchIsFailSoft(first, -INF, INF);
    RootCount(c, t);
    FullIsExact(first);
    SerialTailIsCheaper(c, t.kids.tail, -Score(first, -INF, INF), Score(first, -INF, INF));
    EachWiderCostsMore(c, t.kids.tail, Score(first, -INF, INF));
    OneLevelIsEach(c, t.kids);
  }

  /** Serial search raises alpha from move to move, so each window is inside the seed's. */
  lemma {:induction false} SerialTailIsCheaper(c: Counter, ts: Trees, alpha: int, seed: int)
    requires AllSound(ts) && Counts(c) && -INF < -seed <= alpha < INF
    ensures CountRest(c, ts, alpha, INF) <= EachCount(c, ts, seed)
  {
    if ts.Cons? {
      NarrowerIsCheaper(c, ts.head, -INF, -alpha, -INF, seed);
      SearchIsFailSoft(ts.head, -INF, -alpha);
      SerialTailIsCheaper(c, ts.tail, Max(alpha, -Score(ts.head, -INF, -alpha)), seed);
    }
  }

  lemma {:induction false} EachWiderCostsMore(c: Counter, ts: Trees, beta: int)
    requires AllSound(ts) && Counts(c) && -INF < beta < INF
    ensures EachCount(c, ts, beta) <= EachCount(c, ts, INF)
  {
    if ts.Cons? {
      NarrowerIsCheaper(c, ts.head, -INF, beta, -INF, INF);
      EachWiderCostsMore(c, ts.tail, beta);
    }
  }

  lemma {:induction false} OneLevelIsEach(c: Counter, ts: Trees)
    ensures FrontierCountRest(c, ts, 0) == EachCount(c, ts, INF)
  {
    if ts.Cons? {
      OneLevelIsEach(c, ts.tail);
    }
  }

  /** Each further level of splitting gives up more pruning. */
  lemma {:induction false} DeeperFrontierCostsMore(c: Counter, t: Tree, levels: nat)
    requires Sound(t) && Counts(c)
    ensures FrontierCount(c, t, levels) <= FrontierCount(c, t, levels + 1)
    decreases t, 1
  {
    if t.Inner? {
      if levels == 0 {
        RootSplitsCostMore(c, t);
      } else {
        DeeperFrontierCostsMoreRest(c, t.kids, levels - 1);
      }
    }
  }

  lemma {:induction false} DeeperFrontierCostsMoreRest(c: Counter, ts: Trees, levels: nat)
    requires AllSound(ts) && Counts(c)
    ensures FrontierCountRest(c, ts, levels) <= FrontierCountRest(c, ts, levels + 1)
    decreases ts, 0
  {
    if ts.Cons? {
      DeeperFrontierCostsMore(c, ts.head, levels);
      DeeperFrontierCostsMoreRest(c, ts.tail, levels);
    }
  }

  /** The frontiers in order of their depth. */
  lemma {:induction false} FrontiersInOrder(c: Counter, t: Tree, levels: nat, more: nat)
    requires Sound(t) && Counts(c)
    ensures FrontierCount(c, t, levels) <= FrontierCount(c, t, levels + more)
  {
    if more > 0 {
      FrontiersInOrder(c, t, levels, more - 1);
      DeeperFrontierCostsMore(c, t, levels + more - 1);
    }
  }

  lemma {:induction false} DeepFrontierIsExhaustive(c: Counter, t: Tree, levels: nat)
    requires Height(t) <= levels
    ensures FrontierCount(c, t, levels) == Size(c, t)
    decreases t, 1
  {
    if t.Inner? {
      DeepFrontierIsExhaustiveRest(c, t.kids, levels - 1);
    }
  }

  lemma {:induction false} DeepFrontierIsExhaustiveRest(c: Counter, ts: Trees, levels: nat)
    requires HeightRest(ts) <= levels
    ensures FrontierCountRest(c, ts, levels) == SizeRest(c, ts)
    decreases ts, 0
  {
    if ts.Cons? {
      DeepFrontierIsExhaustive(c, ts.head, levels);
      DeepFrontierIsExhaustiveRest(c, ts.tail, levels);
    }
  }

  lemma {:induction false} FrontierIsAtMostExhaustive(c: Counter, t: Tree, levels: nat)
    requires Sound(t) && Counts(c)
    ensures FrontierCount(c, t, levels) <= Size(c, t)
    decreases if Height(t) <= levels then 0 else Height(t) - levels
  {
    if Height(t) <= levels {
      DeepFrontierIsExhaustive(c, t, levels);
    } else {
      DeeperFrontierCostsMore(c, t, levels);
      FrontierIsAtMostExhaustive(c, t, levels + 1);
    }
  }

  lemma {:induction false} GameTreeHeight(g: Rules, p: Position, depth: nat, ply: int)
    ensures Height(GameTree(g, p, depth, ply)) <= depth
    decreases depth, g.Width(p) + 1
  {
    if !g.Over(p) && depth > 0 {
      KidsHeight(g, p, depth, ply, 0);
    }
  }

  lemma {:induction false} KidsHeight(g: Rules, p: Position, depth: nat, ply: int, i: nat)
    requires depth > 0 && i <= g.Width(p)
    ensures HeightRest(Kids(g, p, depth, ply, i)) <= depth - 1
    decreases depth, g.Width(p) - i
  {
    if i < g.Width(p) {
      GameTreeHeight(g, g.Child(p, i), depth - 1, ply + 1);
      KidsHeight(g, p, depth, ply, i + 1);
    }
  }

  /** The whole chain, for every position, depth and split. Where there is nothing to search
      below the root, all counts are the same. */
  lemma WorkOrdering(c: Counter, g: Rules, p: Position, depth: nat, split: nat)
    requires InRange(depth, 0) && Counts(c) && 1 <= split <= depth
    ensures var t := GameTree(g, p, depth, 0);
      if g.Over(p) then FullCount(c, t) == FrontierCount(c, t, split) == Size(c, t)
      else
        && t.Inner? && t.kids.Cons?
        && FullCount(c, t) <= SeededCount(c, t) <= FrontierCount(c, t, 1)
        && FrontierCount(c, t, 1) <= FrontierCount(c, t, split) <= FrontierCount(c, t, split + 1) <= Size(c, t)
        && FrontierCount(c, t, depth) == Size(c, t)
  {
    var t := GameTree(g, p, depth, 0);
    if !g.Over(p) {
      GameTreeIsSound(g, p, depth, 0);
      GameTreeHeight(g, p, depth, 0);
      RootSplitsCostMore(c, t);
      FrontiersInOrder(c, t, 1, split - 1);
      DeeperFrontierCostsMore(c, t, split);
      FrontierIsAtMostExhaustive(c, t, split + 1);
      DeepFrontierIsExhaustive(c, t, depth);
    }
  }
}
