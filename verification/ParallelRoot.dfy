/** The root moves as independent tasks, with full windows or bounded by the first move. */
module ParallelRoot {
  import opened Chess
  import opened AlphaBeta
  import opened Windows
  import opened Schedule
  import opened Parallel
  import opened Root

  function AsCounter(f: Field): Counter {
    match f
    case NodeField => Nodes
    case LeafField => Leaves
    case CutoffField => Cutoffs
  }

  // ---------------------------------------------------------------- sums over the moves

  lemma {:induction false} SumOverMoves(ts: Trees, beta: int, outs: seq<Outcome>, f: Field)
    requires |outs| == Length(ts) && forall i | 0 <= i < |outs| :: outs[i] == Searched(Nth(ts, i), beta, true)
    ensures Sum(outs, f) == EachCount(AsCounter(f), ts, beta)
  {
    if ts.Cons? {
      SumFromFront(outs, f);
      assert outs[0] == Searched(Nth(ts, 0), beta, true);
      forall i | 0 <= i < |outs[1..]|
        ensures outs[1..][i] == Searched(Nth(ts.tail, i), beta, true)
      {
        assert outs[1..][i] == outs[i + 1] && Nth(ts, i + 1) == Nth(ts.tail, i);
      }
      SumOverMoves(ts.tail, beta, outs[1..], f);
    }
  }

  /** What a root split counts: with or without the seed. */
  function SplitCount(c: Counter, t: Tree, seeded: bool): nat {
    if seeded && t.Inner? && t.kids.Cons? then SeededCount(c, t) else FrontierCount(c, t, 1)
  }

  /** The outcomes one process would compute for the root moves. */
  ghost predicate MoveOutcomes(kids: Trees, outs: seq<Outcome>, seeded: bool) {
    && kids.Cons? && |outs| == Length(kids)
    && forall i | 0 <= i < |outs| :: outs[i] == Searched(Nth(kids, i), MoveBeta(kids, i, seeded), true)
  }

  function MoveBeta(kids: Trees, i: nat, seeded: bool): int
    requires kids.Cons?
  {
    if seeded && i > 0 then Score(kids.head, -INF, INF) else INF
  }

  lemma SumOfMoveOutcomes(kids: Trees, outs: seq<Outcome>, seeded: bool, f: Field)
    requires MoveOutcomes(kids, outs, seeded)
    ensures PerNode(AsCounter(f)) + Sum(outs, f) == SplitCount(AsCounter(f), Inner(kids), seeded)
  {
    if seeded {
      SumFromFront(outs, f);
      assert outs[0] == Searched(Nth(kids, 0), INF, true);
      forall i | 0 <= i < |outs[1..]|
        ensures outs[1..][i] == Searched(Nth(kids.tail, i), Score(kids.head, -INF, INF), true)
      {
        assert outs[1..][i] == outs[i + 1] && Nth(kids, i + 1) == Nth(kids.tail, i);
      }
      SumOverMoves(kids.tail, Score(kids.head, -INF, INF), outs[1..], f);
    } else {
      SumOverMoves(kids, INF, outs, f);
      OneLevelIsEach(AsCounter(f), kids);
    }
  }

  // -------------------------------------------------------------------- the seed's bound

  /** With the seed's score as bound, a move truly better than the seed gets its exact
      score, and any other a score between its true value and the seed. */
  lemma SeedBoundIsSafe(t: Tree, seed: int)
    requires Sound(t) && -INF < seed < INF
    ensures var s, v := -Score(t, -INF, -seed), -Value(t);
      && (v > seed ==> s == v)
      && (v <= seed ==> v <= s <= seed)
      && -INF < s < INF
  {
    SearchIsFailSoft(t, -INF, -seed);
  }

  /** The selection may use the outcomes of a root split as if they were exact. */
  lemma OutcomeIsGoodEnough(kids: Trees, outs: seq<Outcome>, seeded: bool, i: nat, best: int)
    requires AllSound(kids) && MoveOutcomes(kids, outs, seeded) && i < |outs|
    requires i > 0 ==> best >= outs[0].score
    ensures GoodEnough(outs[i].score, -Value(Nth(kids, i)), best) && outs[i].score < INF
  {
    NthIsSound(kids, i);
    FullIsExact(kids.head);
    ValueInRange(kids.head);
    assert outs[0] == Searched(Nth(kids, 0), INF, true);
    if seeded && i > 0 {
      SeedBoundIsSafe(Nth(kids, i), outs[0].score);
    } else {
      FullIsExact(Nth(kids, i));
      ValueInRange(Nth(kids, i));
    }
  }

  lemma {:induction false} NthIsSound(ts: Trees, i: nat)
    requires AllSound(ts) && i < Length(ts)
    ensures Sound(Nth(ts, i))
  {
    if i > 0 {
      NthIsSound(ts.tail, i - 1);
    }
  }

  // ------------------------------------------------------------------------ the search

  /** Every rank ends with this result. */
  method RootSearch(g: Rules, initial: Position, moves: seq<Move>, depth: nat, ranks: nat, seedFirst: bool)
    returns (r: Result)
    requires moves == g.Moves(initial) && depth > 0 && InRange(depth, 0) && ranks > 0
    ensures var t := RootTree(g, initial, depth);
      && Answers(t, r.score, r.moveIndex)
      && r.nodes == SplitCount(Nodes, t, seedFirst)
      && r.leaves == SplitCount(Leaves, t, seedFirst)
      && r.cutoffs == SplitCount(Cutoffs, t, seedFirst)
  {
    if |moves| == 0 || g.Drawn(initial) {
      r := SerialSearch(g, initial, moves, depth, true);
      return;
    }
    RootIsSound(g, initial, depth);
    ghost var kids := Kids(g, initial, depth, 0, 0);
    var world, outs := SearchMoves(g, initial, moves, depth, ranks, seedFirst);
    forall i | 0 <= i < |outs|
      ensures outs[i].score > -INF
    {
      NthIsSound(kids, i);
      FullIsExact(kids.head);
      ValueInRange(kids.head);
      SearchIsFailSoft(Nth(kids, i), -INF, MoveBeta(kids, i, seedFirst));
    }
    ghost var deal := RoundRobin(|moves|, ranks);
    MergedScores(Rows(world), outs, deal, ranks, seedFirst);
    MergedSums(Rows(world), outs, deal, ranks, seedFirst, NodeField);
    MergedSums(Rows(world), outs, deal, ranks, seedFirst, LeafField);
    MergedSums(Rows(world), outs, deal, ranks, seedFirst, CutoffField);
    SumOfMoveOutcomes(kids, outs, seedFirst, NodeField);
    SumOfMoveOutcomes(kids, outs, seedFirst, LeafField);
    SumOfMoveOutcomes(kids, outs, seedFirst, CutoffField);
    var combined := MaxReduce(world);
    var score, moveIndex := Select(combined, kids, outs, seedFirst);
    var nodes, leaves, cutoffs := SumReduce(world);
    r := Result(score, moveIndex, nodes + 1, leaves, cutoffs);
  }

  method Select(combined: seq<int>, ghost kids: Trees, ghost outs: seq<Outcome>, ghost seeded: bool)
    returns (score: int, moveIndex: int)
    requires AllSound(kids) && MoveOutcomes(kids, outs, seeded)
    requires |combined| == |outs| && forall i | 0 <= i < |outs| :: combined[i] == outs[i].score
    ensures Answers(Inner(kids), score, moveIndex)
  {
    score, moveIndex := -INF, -1;
    for i := 0 to |combined|
      invariant BestSoFar(kids, i, score, moveIndex)
      invariant i > 0 ==> score >= outs[0].score
    {
      OutcomeIsGoodEnough(kids, outs, seeded, i, score);
      SelectStep(kids, i, score, moveIndex, combined[i]);
      if combined[i] > score {
        score, moveIndex := combined[i], i;
      }
    }
    SelectDone(kids, score, moveIndex);
  }

  /** The seed on rank 0, and the broadcast of its score. */
  method SearchSeed(g: Rules, task: Task, world: array2<Outcome>) returns (o: Outcome)
    requires world.Length0 > 0 && world.Length1 > 0
    requires forall r, i | 0 <= r < world.Length0 && 0 <= i < world.Length1 :: world[r, i] == UNRUN
    modifies world
    ensures o == Solved(g, task)
    ensures forall r, i | 0 <= r < world.Length0 && 0 <= i < world.Length1 ::
      world[r, i] == if i > 0 then UNRUN else if r == 0 then o else UNRUN.(score := o.score)
  {
    o := RunTask(g, task);
    world[0, 0] := o;
    for r := 1 to world.Length0
      invariant forall k, i | 0 <= k < world.Length0 && 0 <= i < world.Length1 ::
        world[k, i] == if i > 0 || k >= r then UNRUN else if k == 0 then o else UNRUN.(score := o.score)
    {
      world[r, 0] := world[r, 0].(score := world[0, 0].score);
    }
  }

  /** The parallel part: the seed on rank 0 and its broadcast, then every other move. */
  method SearchMoves(g: Rules, initial: Position, moves: seq<Move>, depth: nat, ranks: nat, seedFirst: bool)
    returns (world: array2<Outcome>, ghost outs: seq<Outcome>)
    requires moves == g.Moves(initial) && depth > 0 && !g.Over(initial) && ranks > 0
    ensures fresh(world) && world.Length0 == ranks && world.Length1 == |moves|
    ensures MoveOutcomes(Kids(g, initial, depth, 0, 0), outs, seedFirst)
    ensures |outs| == |moves| && Merged(Rows(world), outs, RoundRobin(|moves|, ranks), ranks, seedFirst)
  {
    var n := |moves|;
    world := new Outcome[ranks, n]((_, _) => UNRUN);
    var first, beta := 0, INF;
    ghost var seed := UNRUN;
    if seedFirst {
      var o := SearchSeed(g, Task(g.Play(initial, moves[0]), depth - 1, 1, INF, true), world);
      seed := o;
      beta := -o.score;
      first := 1;
    }
    var tasks := seq(n, i requires 0 <= i < n => Task(g.Play(initial, moves[i]), depth - 1, 1, beta, true));
    RunTasks(g, tasks, first, world);
    outs := seq(n, i requires 0 <= i < n => if i < first then seed else Solved(g, tasks[i]));
    MovesSearched(g, initial, moves, depth, seedFirst, outs);
    assert RoundRobin(n, ranks)[0] == 0;
  }

  lemma MovesSearched(g: Rules, initial: Position, moves: seq<Move>, depth: nat, seeded: bool, outs: seq<Outcome>)
    requires moves == g.Moves(initial) && depth > 0 && !g.Over(initial) && |outs| == |moves|
    requires outs[0] == Solved(g, Task(g.Play(initial, moves[0]), depth - 1, 1, INF, true))
    requires forall i | 0 < i < |outs| ::
      outs[i] == Solved(g, Task(g.Play(initial, moves[i]), depth - 1, 1, if seeded then -outs[0].score else INF, true))
    ensures MoveOutcomes(Kids(g, initial, depth, 0, 0), outs, seeded)
  {
    var kids := Kids(g, initial, depth, 0, 0);
    KidsLength(g, initial, depth, 0, 0);
    NthKid(g, initial, depth, 0, 0, 0);
    forall i | 0 <= i < |outs|
      ensures outs[i] == Searched(Nth(kids, i), MoveBeta(kids, i, seeded), true)
    {
      NthKid(g, initial, depth, 0, 0, i);
    }
  }
}
