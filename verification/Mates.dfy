/** What the scores say about the game: forced mates, fastest first, and dead level positions. */
module Mates {
  import opened Chess
  import opened Root

  // -------------------------------------------------------------------- forced mates

  predicate Mated(g: Rules, p: Position) {
    g.Width(p) == 0 && g.InCheck(p)
  }

  /** The side to move can force mate within `n` plies. */
  predicate ForcedMate(g: Rules, p: Position, n: nat)
    decreases n
  {
    n > 0 && !g.Over(p) && exists i | 0 <= i < g.Width(p) :: ForcedLoss(g, g.Child(p, i), n - 1)
  }

  /** Whatever it plays, the side to move is mated within `n` plies. */
  predicate ForcedLoss(g: Rules, p: Position, n: nat)
    decreases n
  {
    Mated(g, p) || (n > 0 && !g.Over(p) && forall i | 0 <= i < g.Width(p) :: ForcedMate(g, g.Child(p, i), n - 1))
  }

  /** Every evaluation at the horizon is smaller in size than `bound`. */
  predicate Modest(g: Rules, p: Position, depth: nat, bound: int)
    decreases depth
  {
    g.Over(p)
    || if depth == 0 then -bound < Static(p.squares, p.whiteToMove) < bound
       else forall i | 0 <= i < g.Width(p) :: Modest(g, g.Child(p, i), depth - 1, bound)
  }

  /** The best move decides. */
  lemma {:induction false} BestReaches(g: Rules, p: Position, depth: nat, ply: int, i: nat, x: int)
    requires depth > 0 && i <= g.Width(p) && x > -INF
    ensures Best(Kids(g, p, depth, ply, i)) >= x <==>
      exists j | i <= j < g.Width(p) :: MoveReaches(g, p, depth, ply, j, x)
    decreases g.Width(p) - i
  {
    if i < g.Width(p) {
      BestReaches(g, p, depth, ply, i + 1, x);
      var head := GameTree(g, g.Child(p, i), depth - 1, ply + 1);
      assert Best(Kids(g, p, depth, ply, i)) == Max(-Value(head), Best(Kids(g, p, depth, ply, i + 1)));
      assert MoveReaches(g, p, depth, ply, i, x) <==> -Value(head) >= x;
    }
  }

  predicate MoveReaches(g: Rules, p: Position, depth: nat, ply: int, j: nat, x: int)
    requires depth > 0 && j < g.Width(p)
  {
    -Value(GameTree(g, g.Child(p, j), depth - 1, ply + 1)) >= x
  }

  /** The mate-distance law: the value tells exactly who can force mate, and how soon. Up to
      `n = 0` the claims say that no value is better than an immediate mate. */
  lemma {:induction false} ValueTellsMate(g: Rules, p: Position, depth: nat, ply: nat, n: int)
    requires ply + depth < MATE && depth - MATE <= n <= depth && Modest(g, p, depth, MATE - ply - depth)
    ensures var v := Value(GameTree(g, p, depth, ply));
      && (v >= MATE - ply - n <==> n >= 0 && ForcedMate(g, p, n))
      && (v <= -(MATE - ply - n) <==> n >= 0 && ForcedLoss(g, p, n))
    decreases depth
  {
    if !g.Over(p) && depth > 0 {
      var x := MATE - ply - n;
      BestReaches(g, p, depth, ply, 0, x);
      BestReaches(g, p, depth, ply, 0, -x + 1);
      forall i | 0 <= i < g.Width(p)
        ensures MoveReaches(g, p, depth, ply, i, x) <==> n - 1 >= 0 && ForcedLoss(g, g.Child(p, i), n - 1)
        ensures !MoveReaches(g, p, depth, ply, i, -x + 1) <==> n - 1 >= 0 && ForcedMate(g, g.Child(p, i), n - 1)
      {
        ValueTellsMate(g, g.Child(p, i), depth - 1, ply + 1, n - 1);
      }
    }
  }

  /** The answer is a move, and its value is the score. */
  lemma AnswerIsMove(g: Rules, initial: Position, depth: nat, score: int, moveIndex: int)
    requires 0 < depth < MATE && !g.Over(initial) && Answers(RootTree(g, initial, depth), score, moveIndex)
    ensures score == Value(RootTree(g, initial, depth)) && 0 <= moveIndex < g.Width(initial)
    ensures score == -Value(GameTree(g, g.Child(initial, moveIndex), depth - 1, 1))
  {
    RootIsSound(g, initial, depth);
    NthKid(g, initial, depth, 0, 0, moveIndex);
  }

  /** A root search that can force mate starts a fastest one, and its score says how fast. */
  lemma FastestMate(g: Rules, initial: Position, depth: nat, score: int, moveIndex: int, n: nat)
    requires 0 < n <= depth < MATE && Modest(g, initial, depth, MATE - depth)
    requires Answers(RootTree(g, initial, depth), score, moveIndex)
    requires ForcedMate(g, initial, n) && !ForcedMate(g, initial, n - 1)
    ensures score == MATE - n
    ensures 0 <= moveIndex < g.Width(initial) && ForcedLoss(g, g.Child(initial, moveIndex), n - 1)
  {
    ValueTellsMate(g, initial, depth, 0, n);
    ValueTellsMate(g, initial, depth, 0, n - 1);
    AnswerIsMove(g, initial, depth, score, moveIndex);
    ValueTellsMate(g, g.Child(initial, moveIndex), depth - 1, 1, n - 1);
  }

  /** A root search that cannot avoid mate puts it off as long as it can. */
  lemma SlowestLoss(g: Rules, initial: Position, depth: nat, score: int, moveIndex: int, n: nat)
    requires 0 < n <= depth < MATE && Modest(g, initial, depth, MATE - depth) && !g.Over(initial)
    requires Answers(RootTree(g, initial, depth), score, moveIndex)
    requires ForcedLoss(g, initial, n) && !ForcedLoss(g, initial, n - 1)
    ensures score == -(MATE - n)
    ensures 0 <= moveIndex < g.Width(initial) && (n > 1 ==> !ForcedMate(g, g.Child(initial, moveIndex), n - 2))
  {
    ValueTellsMate(g, initial, depth, 0, n);
    ValueTellsMate(g, initial, depth, 0, n - 1);
    AnswerIsMove(g, initial, depth, score, moveIndex);
    ValueTellsMate(g, g.Child(initial, moveIndex), depth - 1, 1, n - 2);
  }

  // ----------------------------------------------------------------- level positions

  /** However it goes on, nobody is mated, and the material is level at the horizon. */
  predicate Level(g: Rules, p: Position, depth: nat)
    decreases depth
  {
    if g.Width(p) == 0 then !g.InCheck(p)
    else if g.Drawn(p) then true
    else if depth == 0 then Static(p.squares, p.whiteToMove) == 0
    else forall i | 0 <= i < g.Width(p) :: Level(g, g.Child(p, i), depth - 1)
  }

  /** Then the value is zero, whatever mix of stalemates, draws and quiet positions it is. */
  lemma {:induction false} LevelIsZero(g: Rules, p: Position, depth: nat, ply: int)
    requires Level(g, p, depth)
    ensures Value(GameTree(g, p, depth, ply)) == 0
    decreases depth, g.Width(p) + 1
  {
    if !g.Over(p) && depth > 0 {
      EachLevelIsZero(g, p, depth, ply, 0);
    }
  }

  lemma {:induction false} EachLevelIsZero(g: Rules, p: Position, depth: nat, ply: int, i: nat)
    requires depth > 0 && i <= g.Width(p)
    requires forall j | 0 <= j < g.Width(p) :: Level(g, g.Child(p, j), depth - 1)
    ensures Best(Kids(g, p, depth, ply, i)) == if i < g.Width(p) then 0 else -INF
    decreases depth, g.Width(p) - i
  {
    if i < g.Width(p) {
      LevelIsZero(g, g.Child(p, i), depth - 1, ply + 1);
      EachLevelIsZero(g, p, depth, ply, i + 1);
    }
  }
}
