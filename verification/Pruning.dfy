/** How much pruning can save on a uniform tree, and the move orderings that save it all. */
module Pruning {
  import opened Chess
  import opened AlphaBeta
  import opened Windows

  /** `width` moves everywhere above depth `depth`, and nothing ends earlier. */
  predicate Uniform(t: Tree, width: nat, depth: nat)
    decreases t, 1
  {
    if depth == 0 then !t.Inner?
    else t.Inner? && Length(t.kids) == width && AllUniform(t.kids, width, depth - 1)
  }

  predicate AllUniform(ts: Trees, width: nat, depth: nat)
    decreases ts, 0
  {
    ts.Cons? ==> Uniform(ts.head, width, depth) && AllUniform(ts.tail, width, depth)
  }

  function Pow(b: nat, e: nat): nat {
    if e == 0 then 1 else b * Pow(b, e - 1)
  }

  /** Fewest leaves that can show a node's value to be at least, or at most, a bound. */
  function AtLeastProof(b: nat, d: nat): nat {
    Pow(b, d / 2)
  }

  function AtMostProof(b: nat, d: nat): nat {
    Pow(b, (d + 1) / 2)
  }

  lemma ProofSizes(b: nat, d: nat)
    requires b > 0
    ensures d > 0 ==> AtLeastProof(b, d) == AtMostProof(b, d - 1)
    ensures d > 0 ==> AtMostProof(b, d) == b * AtLeastProof(b, d - 1)
    ensures AtLeastProof(b, d) >= 1 && AtMostProof(b, d) >= 1
    ensures b > 1 && d > 0 ==> AtMostProof(b, d) >= 2
  {
    if d > 0 {
      assert (d - 1 + 1) / 2 == d / 2;
      assert (d + 1) / 2 - 1 == (d - 1) / 2;
      PowPositive(b, (d - 1) / 2);
    }
    PowPositive(b, d / 2);
    PowPositive(b, (d + 1) / 2);
  }

  lemma {:induction false} PowPositive(b: nat, e: nat)
    requires b > 0
    ensures Pow(b, e) >= 1
  {
    if e > 0 {
      PowPositive(b, e - 1);
    }
  }

  // ------------------------------------------------------------------ the lower bound

  /** Whatever the window, a score above alpha costs a proof of "at least", a score below
      beta a proof of "at most", and an exact score both, which share one leaf. */
  lemma {:induction false} LeavesNeeded(t: Tree, b: nat, d: nat, alpha: int, beta: int)
    requires Sound(t) && Uniform(t, b, d) && b > 0 && -INF <= alpha < beta <= INF
    ensures var r, n := Score(t, alpha, beta), Count(Leaves, t, alpha, beta);
      && (r > alpha ==> n >= AtLeastProof(b, d))
      && (r < beta ==> n >= AtMostProof(b, d))
      && (alpha < r < beta ==> n >= AtLeastProof(b, d) + AtMostProof(b, d) - 1)
    decreases t, 1
  {
    ProofSizes(b, d);
    if t.Inner? {
      LeavesNeededRest(t.kids, b, d - 1, -INF, alpha, beta);
    }
  }

  lemma {:induction false} LeavesNeededRest(ts: Trees, b: nat, d: nat, best: int, alpha: int, beta: int)
    requires AllSound(ts) && AllUniform(ts, b, d) && b > 0 && -INF <= alpha < beta <= INF && best <= alpha
    ensures var r, n := ScoreRest(ts, best, alpha, beta), CountRest(Leaves, ts, alpha, beta);
      && (r < beta ==> n >= Length(ts) * AtLeastProof(b, d))
      && (r > alpha ==> n >= AtMostProof(b, d))
      && (alpha < r < beta ==> n >= Length(ts) * AtLeastProof(b, d) + AtMostProof(b, d) - 1)
    decreases ts, 0
  {
    if ts.Cons? {
      var s := -Score(ts.head, -beta, -alpha);
      LeavesNeeded(ts.head, b, d, -beta, -alpha);
      ScoreRestIsAtLeast(ts.tail, Max(best, s), Max(alpha, s), beta);
      Split(ts, AtLeastProof(b, d));
      ProofSizes(b, d);
      if Max(alpha, s) < beta {
        LeavesNeededRest(ts.tail, b, d, Max(best, s), Max(alpha, s), beta);
      }
    }
  }

  lemma Split(ts: Trees, x: nat)
    requires ts.Cons?
    ensures Length(ts) * x == x + Length(ts.tail) * x
  {
    OneMore(Length(ts.tail), x);
  }

  lemma OneMore(n: nat, x: nat)
    ensures (1 + n) * x == x + n * x
  {
  }

  lemma {:induction false} ScoreRestIsAtLeast(ts: Trees, best: int, alpha: int, beta: int)
    ensures ScoreRest(ts, best, alpha, beta) >= best
  {
    if ts.Cons? {
      var s := -Score(ts.head, -beta, -alpha);
      ScoreRestIsAtLeast(ts.tail, Max(best, s), Max(alpha, s), beta);
    }
  }

  lemma {:induction false} UniformSize(t: Tree, b: nat, d: nat)
    requires Uniform(t, b, d)
    ensures Size(Leaves, t) == Pow(b, d)
    decreases t, 1
  {
    if t.Inner? {
      UniformSizeRest(t.kids, b, d - 1);
    }
  }

  lemma {:induction false} UniformSizeRest(ts: Trees, b: nat, d: nat)
    requires AllUniform(ts, b, d)
    ensures SizeRest(Leaves, ts) == Length(ts) * Pow(b, d)
    decreases ts, 0
  {
    if ts.Cons? {
      UniformSize(ts.head, b, d);
      UniformSizeRest(ts.tail, b, d);
      Split(ts, Pow(b, d));
    }
  }

  /** The serial search of a uniform tree visits at least b^ceil(d/2) + b^floor(d/2) - 1
      leaves and at most b^d. */
  lemma LeafBounds(t: Tree, b: nat, d: nat)
    requires Sound(t) && Uniform(t, b, d) && b > 0
    ensures Pow(b, (d + 1) / 2) + Pow(b, d / 2) - 1 <= FullCount(Leaves, t) <= Pow(b, d)
  {
    SearchIsFailSoft(t, -INF, INF);
    LeavesNeeded(t, b, d, -INF, INF);
    PruningNeverCosts(Leaves, t, -INF, INF);
    UniformSize(t, b, d);
  }

  // ------------------------------------------------ the orderings that meet the bound

  /** On the leftmost path the first move must be best (unless it leads straight to a
      leaf), and the other moves must be refuted by their first reply. */
  predicate WellOrdered(t: Tree) {
    t.Inner? && t.kids.Cons? ==>
      && WellOrdered(t.kids.head)
      && (t.kids.head.Inner? ==> AllRefuted(t.kids.tail, Value(t.kids.head)))
  }

  predicate AllRefuted(ts: Trees, beta: int) {
    ts.Cons? ==> Value(ts.head) >= beta && Refuted(ts.head, beta) && AllRefuted(ts.tail, beta)
  }

  /** The first move reaches `beta`, and cheaply. */
  predicate Refuted(t: Tree, beta: int) {
    t.Inner? && t.kids.Cons? ==> -Value(t.kids.head) >= beta && Held(t.kids.head, -beta)
  }

  /** No move exceeds `alpha`, and each is refuted cheaply. */
  predicate Held(t: Tree, alpha: int) {
    t.Inner? ==> AllHeld(t.kids, -alpha)
  }

  predicate AllHeld(ts: Trees, beta: int) {
    ts.Cons? ==> Refuted(ts.head, beta) && AllHeld(ts.tail, beta)
  }

  /** A node whose value reaches beta is searched at least cost exactly when it is refuted. */
  lemma {:induction false} RefutedIsCheapest(t: Tree, b: nat, d: nat, beta: int)
    requires Sound(t) && Uniform(t, b, d) && b > 1 && -INF < beta < INF && Value(t) >= beta
    ensures Count(Leaves, t, -INF, beta) == AtLeastProof(b, d) <==> Refuted(t, beta)
    decreases t, 1
  {
    ProofSizes(b, d);
    if t.Inner? {
      ProofSizes(b, d - 1);
      var first, rest := t.kids.head, t.kids.tail;
      SearchIsFailSoft(first, -beta, INF);
      var s := -Score(first, -beta, INF);
      if -Value(first) >= beta {
        HeldIsCheapest(first, b, d - 1, -beta);
        assert s >= beta;
      } else {
        assert s == -Value(first) < beta;
        LeavesNeeded(first, b, d - 1, -beta, INF);
        SearchIsFailSoft(t, -INF, beta);
        LeavesNeededRest(rest, b, d - 1, s, s, beta);
        assert Score(t, -INF, beta) == ScoreRest(rest, s, s, beta);
      }
    }
  }

  /** A node whose value stays at alpha is searched at least cost exactly when it is held. */
  lemma {:induction false} HeldIsCheapest(t: Tree, b: nat, d: nat, alpha: int)
    requires Sound(t) && Uniform(t, b, d) && b > 1 && -INF < alpha < INF && Value(t) <= alpha
    ensures Count(Leaves, t, alpha, INF) == AtMostProof(b, d) <==> Held(t, alpha)
    decreases t, 1
  {
    ProofSizes(b, d);
    if t.Inner? {
      AllHeldIsCheapest(t.kids, b, d - 1, alpha);
    }
  }

  lemma {:induction false} AllHeldIsCheapest(ts: Trees, b: nat, d: nat, alpha: int)
    requires AllSound(ts) && AllUniform(ts, b, d) && b > 1 && -INF < alpha < INF && Best(ts) <= alpha
    ensures CountRest(Leaves, ts, alpha, INF) >= Length(ts) * AtLeastProof(b, d)
    ensures CountRest(Leaves, ts, alpha, INF) == Length(ts) * AtLeastProof(b, d) <==> AllHeld(ts, -alpha)
    decreases ts, 0
  {
    if ts.Cons? {
      SearchIsFailSoft(ts.head, -INF, -alpha);
      LeavesNeeded(ts.head, b, d, -INF, -alpha);
      RefutedIsCheapest(ts.head, b, d, -alpha);
      AllHeldIsCheapest(ts.tail, b, d, alpha);
      Split(ts, AtLeastProof(b, d));
    }
  }

  /** After the first move: the other moves cost least exactly when all are refuted. */
  lemma {:induction false} AllRefutedIsCheapest(ts: Trees, b: nat, d: nat, alpha: int)
    requires AllSound(ts) && AllUniform(ts, b, d) && b > 1 && d > 0 && -INF < alpha < INF
    ensures CountRest(Leaves, ts, alpha, INF) >= Length(ts) * AtLeastProof(b, d)
    ensures CountRest(Leaves, ts, alpha, INF) == Length(ts) * AtLeastProof(b, d) <==> AllRefuted(ts, -alpha)
    decreases ts, 0
  {
    if ts.Cons? {
      var s := -Score(ts.head, -INF, -alpha);
      SearchIsFailSoft(ts.head, -INF, -alpha);
      LeavesNeeded(ts.head, b, d, -INF, -alpha);
      AllRefutedIsCheapest(ts.tail, b, d, Max(alpha, s));
      Split(ts, AtLeastProof(b, d));
      if Value(ts.head) >= -alpha {
        RefutedIsCheapest(ts.head, b, d, -alpha);
      } else {
        ProofSizes(b, d);
      }
    }
  }

  /** Right above the leaves every order of moves costs the same. */
  lemma LastLevelIsWellOrdered(t: Tree, b: nat)
    requires Sound(t) && Uniform(t, b, 1)
    ensures FullCount(Leaves, t) == b && WellOrdered(t)
  {
    var first := t.kids.head;
    assert Uniform(first, b, 0);
    LeavesOnce(t.kids, b, -INF);
  }

  /** The lower bound is met exactly by the well-ordered trees. */
  lemma {:induction false} BoundMetExactly(t: Tree, b: nat, d: nat)
    requires Sound(t) && Uniform(t, b, d) && b > 0
    ensures FullCount(Leaves, t) == Pow(b, (d + 1) / 2) + Pow(b, d / 2) - 1 <==> b == 1 || WellOrdered(t)
    decreases t
  {
    LeafBounds(t, b, d);
    if b == 1 {
      PowOfOne((d + 1) / 2);
      PowOfOne(d / 2);
      PowOfOne(d);
    } else if d == 1 {
      LastLevelIsWellOrdered(t, b);
      assert Pow(b, 1) == b * Pow(b, 0) == b;
    } else if d > 1 {
      var first, rest := t.kids.head, t.kids.tail;
      ProofSizes(b, d);
      Split(t.kids, AtLeastProof(b, d - 1));
      ValueInRange(first);
      RootCount(Leaves, t);
      LeafBounds(first, b, d - 1);
      BoundMetExactly(first, b, d - 1);
      AllRefutedIsCheapest(rest, b, d - 1, -Value(first));
    }
  }

  lemma {:induction false} LeavesOnce(ts: Trees, b: nat, alpha: int)
    requires AllSound(ts) && AllUniform(ts, b, 0) && -INF <= alpha < INF
    ensures CountRest(Leaves, ts, alpha, INF) == Length(ts)
  {
    if ts.Cons? {
      LeavesOnce(ts.tail, b, Max(alpha, -LeafScore(ts.head)));
    }
  }

  lemma {:induction false} PowOfOne(e: nat)
    ensures Pow(1, e) == 1
  {
    if e > 0 {
      PowOfOne(e - 1);
    }
  }

  // ------------------------------------- "the first move is best" against the condition

  predicate FirstIsBest(t: Tree) {
    t.Inner? && t.kids.Cons? ==> Best(t.kids) == -Value(t.kids.head) && AllFirstIsBest(t.kids)
  }

  predicate AllFirstIsBest(ts: Trees) {
    ts.Cons? ==> FirstIsBest(ts.head) && AllFirstIsBest(ts.tail)
  }

  /** Trying a best move first at every node is enough to meet the bound. */
  lemma {:induction false} FirstIsBestIsWellOrdered(t: Tree)
    requires Sound(t) && FirstIsBest(t)
    ensures WellOrdered(t)
  {
    if t.Inner? {
      FirstIsBestIsWellOrdered(t.kids.head);
      FirstIsBestRefutesAll(t.kids.tail, Value(t.kids.head));
    }
  }

  lemma {:induction false} FirstIsBestRefutesAll(ts: Trees, beta: int)
    requires AllSound(ts) && AllFirstIsBest(ts) && Best(ts) <= -beta
    ensures AllRefuted(ts, beta) && AllHeld(ts, beta)
    decreases ts, 0
  {
    if ts.Cons? {
      FirstIsBestRefutes(ts.head, beta);
      FirstIsBestRefutesAll(ts.tail, beta);
    }
  }

  lemma {:induction false} FirstIsBestRefutes(t: Tree, beta: int)
    requires Sound(t) && FirstIsBest(t) && Value(t) >= beta
    ensures Refuted(t, beta)
    decreases t, 1
  {
    if t.Inner? && t.kids.head.Inner? {
      var first := t.kids.head;
      assert Sound(first) && FirstIsBest(first) && Value(first) <= -beta;
      FirstIsBestRefutesAll(first.kids, beta);
    }
  }

  /** A game of one move: a stalemate, or a mate. */
  function StalemateOrMate(): Rules {
    Rules(
      (p: Position) => if p.state == [] then [0, 1] else [],
      (p: Position, m: Move) => p.(state := [m]),
      (p: Position) => p.state == [1],
      (p: Position) => false)
  }

  function Opening(): Position {
    Position(seq(64, _ => 12), true, [])
  }

  /** It is not necessary: the stalemate tried before the mate in one still costs the least. */
  lemma FirstIsBestIsNotNecessary()
    ensures var t := GameTree(StalemateOrMate(), Opening(), 1, 0);
      && Sound(t) && Uniform(t, 2, 1) && !FirstIsBest(t) && WellOrdered(t)
      && FullCount(Leaves, t) == Pow(2, 1) + Pow(2, 0) - 1
  {
  }

}
