/** Searching the tasks of a frontier and combining their scores. */
module FrontierSearch {
  import opened Chess
  import opened AlphaBeta
  import opened Windows
  import opened FlatTree
  import opened Schedule
  import opened Parallel
  import opened Root
  import opened ParallelRoot
  import opened Frontier

  // ------------------------------------------------------------------------ combining

  /** Children come after their parent and task indices are in range. */
  predicate Walkable(nodes: seq<FrontierNode>, tasks: nat) {
    forall q | 0 <= q < |nodes| :: NodeWalkable(nodes, tasks, q)
  }

  predicate NodeWalkable(nodes: seq<FrontierNode>, tasks: nat, q: nat)
    requires q < |nodes|
  {
    && (nodes[q].childCount > 0 ==> q < nodes[q].firstChild <= |nodes| - nodes[q].childCount)
    && nodes[q].taskIndex < tasks
  }

  function Combined(nodes: seq<FrontierNode>, q: nat, scores: seq<int>): int
    requires Walkable(nodes, |scores|) && q < |nodes|
    decreases |nodes| - q, 0
  {
    assert NodeWalkable(nodes, |scores|, q);
    if nodes[q].taskIndex >= 0 then scores[nodes[q].taskIndex]
    else if nodes[q].childCount == 0 then -INF
    else CombinedBest(nodes, nodes[q].firstChild, nodes[q].firstChild + nodes[q].childCount, scores)
  }

  function CombinedBest(nodes: seq<FrontierNode>, from: nat, to: nat, scores: seq<int>): int
    requires Walkable(nodes, |scores|) && from <= to <= |nodes|
    decreases |nodes| - from, 1
  {
    if from == to then -INF
    else Max(-Combined(nodes, from, scores), CombinedBest(nodes, from + 1, to, scores))
  }

  lemma {:induction false} CombinedFloor(nodes: seq<FrontierNode>, from: nat, to: nat, scores: seq<int>)
    requires Walkable(nodes, |scores|) && from <= to <= |nodes|
    ensures CombinedBest(nodes, from, to, scores) >= -INF
    decreases |nodes| - from
  {
    if from < to {
      CombinedFloor(nodes, from + 1, to, scores);
    }
  }

  /** Terminates because child indices grow. */
  method Combine(nodes: seq<FrontierNode>, index: nat, scores: seq<int>) returns (best: int)
    requires Walkable(nodes, |scores|) && index < |nodes|
    ensures best == Combined(nodes, index, scores)
    decreases |nodes| - index
  {
    var node := nodes[index];
    assert NodeWalkable(nodes, |scores|, index);
    if node.taskIndex >= 0 {
      return scores[node.taskIndex];
    }
    best := -INF;
    if node.childCount > 0 {
      CombinedFloor(nodes, node.firstChild, node.firstChild + node.childCount, scores);
    }
    for i := 0 to node.childCount
      invariant best >= -INF && (node.childCount == 0 ==> best == -INF)
      invariant node.childCount > 0 ==>
        Max(best, CombinedBest(nodes, node.firstChild + i, node.firstChild + node.childCount, scores))
        == Combined(nodes, index, scores)
    {
      var s := Combine(nodes, node.firstChild + i, scores);
      best := Max(best, -s);
    }
  }

  // ---------------------------------------------------------- tasks below a root of depth D

  function SpotTree(g: Rules, spot: Spot, total: nat): Tree {
    GameTree(g, spot.pos, if 0 <= spot.ply <= total then total - spot.ply else 0, spot.ply)
  }

  ghost predicate ScoresExact(g: Rules, spots: seq<Spot>, total: nat, scores: seq<int>) {
    |scores| == |spots| && forall k | 0 <= k < |spots| :: scores[k] == Value(SpotTree(g, spots[k], total))
  }

  /** Given exact task scores, combining a laid-out frontier gives the exact value. */
  lemma {:induction false} CombinedIsValue(g: Rules, p: Position, levels: nat, ply: nat, depth: nat, total: nat,
      nodes: seq<FrontierNode>, spots: seq<Spot>, scores: seq<int>, at: nat, lo: nat, off: nat)
    requires levels <= depth && ply + depth == total
    requires ScoresExact(g, spots, total, scores) && Walkable(nodes, |scores|)
    requires Shown(View(nodes), Snapshots(spots), at, lo, off, Plan(g, p, levels))
    requires spots[off..off + LeafCount(Plan(g, p, levels))] == Spots(g, p, levels, ply)
    ensures Combined(nodes, at, scores) == Value(GameTree(g, p, depth, ply))
    decreases levels, g.Width(p) + 1
  {
    assert View(nodes)[at] == TreeNode(nodes[at].firstChild, nodes[at].childCount, nodes[at].taskIndex, 0);
    if IsTask(g, p, levels) {
      assert spots[off] == Spots(g, p, levels, ply)[0];
    } else {
      SpotsFromCount(g, p, levels, ply, 0);
      CombinedKids(g, p, levels, ply, depth, total, 0, nodes, spots, scores, lo, lo + g.Width(p), off);
      KidsLength(g, p, depth, ply, 0);
      EachCombinedBest(nodes, scores, lo, Kids(g, p, depth, ply, 0));
    }
  }

  /** Combining from slot `at` on gives the values of `kids`, one by one. */
  predicate EachCombined(nodes: seq<FrontierNode>, scores: seq<int>, at: nat, kids: Trees)
    requires Walkable(nodes, |scores|)
    decreases kids
  {
    kids.Cons? ==>
      at < |nodes| && Combined(nodes, at, scores) == Value(kids.head) && EachCombined(nodes, scores, at + 1, kids.tail)
  }

  lemma {:induction false} EachCombinedBest(nodes: seq<FrontierNode>, scores: seq<int>, at: nat, kids: Trees)
    requires Walkable(nodes, |scores|) && EachCombined(nodes, scores, at, kids) && at + Length(kids) <= |nodes|
    ensures CombinedBest(nodes, at, at + Length(kids), scores) == Best(kids)
    decreases kids
  {
    if kids.Cons? {
      EachCombinedBest(nodes, scores, at + 1, kids.tail);
    }
  }

  lemma {:induction false} EachCombinedNth(nodes: seq<FrontierNode>, scores: seq<int>, at: nat, kids: Trees, k: nat)
    requires Walkable(nodes, |scores|) && EachCombined(nodes, scores, at, kids) && k < Length(kids)
    ensures at + k < |nodes| && Combined(nodes, at + k, scores) == Value(Nth(kids, k))
    decreases kids
  {
    if k > 0 {
      EachCombinedNth(nodes, scores, at + 1, kids.tail, k - 1);
    }
  }

  lemma {:induction false} CombinedKids(g: Rules, p: Position, levels: nat, ply: nat, depth: nat, total: nat, i: nat,
      nodes: seq<FrontierNode>, spots: seq<Spot>, scores: seq<int>, at: nat, lo: nat, off: nat)
    requires levels > 0 && i <= g.Width(p)
    requires levels <= depth && ply + depth == total
    requires ScoresExact(g, spots, total, scores) && Walkable(nodes, |scores|)
    requires ShownAll(View(nodes), Snapshots(spots), at, lo, off, PlanKids(g, p, levels, i))
    requires off + LeafCountAll(PlanKids(g, p, levels, i)) <= |spots|
    requires spots[off..off + LeafCountAll(PlanKids(g, p, levels, i))] == SpotsFrom(g, p, levels, ply, i)
    ensures EachCombined(nodes, scores, at, Kids(g, p, depth, ply, i))
    decreases levels, g.Width(p) - i
  {
    if i < g.Width(p) {
      var c := g.Child(p, i);
      var plan := Plan(g, c, levels - 1);
      var mid, end := off + LeafCount(plan), off + LeafCountAll(PlanKids(g, p, levels, i));
      SpotsCount(g, c, levels - 1, ply + 1);
      Halves(spots, off, mid, end, Spots(g, c, levels - 1, ply + 1), SpotsFrom(g, p, levels, ply, i + 1));
      CombinedIsValue(g, c, levels - 1, ply + 1, depth - 1, total, nodes, spots, scores, at, lo, off);
      CombinedKids(g, p, levels, ply, depth, total, i + 1, nodes, spots, scores, at + 1, lo + Below(plan), mid);
    }
  }

  lemma Halves(spots: seq<Spot>, off: nat, mid: nat, end: nat, xs: seq<Spot>, ys: seq<Spot>)
    requires off <= mid <= end <= |spots| && spots[off..end] == xs + ys && |xs| == mid - off
    ensures spots[off..mid] == xs && spots[mid..end] == ys
  {
    assert spots[off..mid] == spots[off..end][..mid - off];
    assert spots[mid..end] == spots[off..end][mid - off..];
  }

  // ---------------------------------------------------------------------- what is counted

  function Interiors(t: Tree): nat {
    if t.Inner? then 1 + InteriorsAll(t.kids) else 0
  }

  function InteriorsAll(ts: Trees): nat {
    if ts.Nil? then 0 else Interiors(ts.head) + InteriorsAll(ts.tail)
  }

  /** Nodes minus tasks is the number of expanded positions. */
  lemma {:induction false} NodesMinusTasks(g: Rules, p: Position, levels: nat)
    ensures 1 + Below(Plan(g, p, levels)) == Interiors(Plan(g, p, levels)) + LeafCount(Plan(g, p, levels))
    decreases levels, g.Width(p) + 1
  {
    if !IsTask(g, p, levels) {
      NodesMinusTasksAll(g, p, levels, 0);
    }
  }

  lemma {:induction false} NodesMinusTasksAll(g: Rules, p: Position, levels: nat, i: nat)
    requires levels > 0 && i <= g.Width(p)
    ensures var ts := PlanKids(g, p, levels, i);
      Length(ts) + BelowAll(ts) == InteriorsAll(ts) + LeafCountAll(ts)
    decreases levels, g.Width(p) - i
  {
    if i < g.Width(p) {
      NodesMinusTasks(g, g.Child(p, i), levels - 1);
      NodesMinusTasksAll(g, p, levels, i + 1);
    }
  }

  function SpotSum(g: Rules, spots: seq<Spot>, total: nat, f: Field): nat {
    if spots == [] then 0
    else
      var last := |spots| - 1;
      SpotSum(g, spots[..last], total, f) + Get(Searched(SpotTree(g, spots[last], total), INF, false), f)
  }

  lemma {:induction false} SpotSumAppend(g: Rules, xs: seq<Spot>, ys: seq<Spot>, total: nat, f: Field)
    ensures SpotSum(g, xs + ys, total, f) == SpotSum(g, xs, total, f) + SpotSum(g, ys, total, f)
  {
    if ys == [] {
      assert xs + ys == xs;
    } else {
      var last := |ys| - 1;
      assert (xs + ys)[..|xs| + last] == xs + ys[..last];
      SpotSumAppend(g, xs, ys[..last], total, f);
    }
  }

  lemma {:induction false} SpotSumIsSum(g: Rules, spots: seq<Spot>, total: nat, outs: seq<Outcome>, f: Field)
    requires |outs| == |spots|
    requires forall k | 0 <= k < |spots| :: outs[k] == Searched(SpotTree(g, spots[k], total), INF, false)
    ensures Sum(outs, f) == SpotSum(g, spots, total, f)
  {
    if spots != [] {
      var last := |spots| - 1;
      SpotSumIsSum(g, spots[..last], total, outs[..last], f);
    }
  }

  function ExpandedCount(f: Field, t: Tree): nat {
    if f.NodeField? then Interiors(t) else 0
  }

  /** The tasks' counts and the expanded positions add up to the frontier's count. */
  lemma {:induction false} FrontierAddsUp(g: Rules, p: Position, levels: nat, ply: nat, depth: nat,
                                          total: nat, f: Field)
    requires levels <= depth && ply + depth == total
    ensures FrontierCount(AsCounter(f), GameTree(g, p, depth, ply), levels)
         == ExpandedCount(f, Plan(g, p, levels)) + SpotSum(g, Spots(g, p, levels, ply), total, f)
    decreases levels, g.Width(p) + 1
  {
    if IsTask(g, p, levels) {
      assert [Spot(p, ply)][..0] == [];
    } else {
      FrontierAddsUpFrom(g, p, levels, ply, depth, total, 0, f);
    }
  }

  lemma {:induction false} FrontierAddsUpFrom(g: Rules, p: Position, levels: nat, ply: nat, depth: nat,
                                              total: nat, i: nat, f: Field)
    requires levels > 0 && i <= g.Width(p) && levels <= depth && ply + depth == total
    ensures FrontierCountRest(AsCounter(f), Kids(g, p, depth, ply, i), levels - 1)
         == (if f.NodeField? then InteriorsAll(PlanKids(g, p, levels, i)) else 0)
            + SpotSum(g, SpotsFrom(g, p, levels, ply, i), total, f)
    decreases levels, g.Width(p) - i
  {
    if i < g.Width(p) {
      var c := g.Child(p, i);
      FrontierAddsUp(g, c, levels - 1, ply + 1, depth - 1, total, f);
      FrontierAddsUpFrom(g, p, levels, ply, depth, total, i + 1, f);
      SpotSumAppend(g, Spots(g, c, levels - 1, ply + 1), SpotsFrom(g, p, levels, ply, i + 1), total, f);
    }
  }

  // ------------------------------------------------------------------------ the search

  datatype Answer = Found(result: Result, treeNodes: nat) | TooLarge

  /** The frontier is refused exactly when its expanded part needs more slots than allowed. */
  predicate Fits(g: Rules, p: Position, split: nat, maxNodes: nat) {
    Below(Plan(g, p, split)) == 0 || 1 + Below(Plan(g, p, split)) <= maxNodes
  }

  method Search(g: Rules, initial: Position, depth: nat, split: nat, maxNodes: nat, ranks: nat)
    returns (a: Answer)
    requires 1 <= split <= depth && InRange(depth, 0) && ranks > 0
    ensures a.Found? <==> Fits(g, initial, split, maxNodes)
    ensures a.Found? ==>
      var t, r := RootTree(g, initial, depth), a.result;
      && Answers(t, r.score, r.moveIndex)
      && r.nodes == FrontierCount(Nodes, t, split)
      && r.leaves == FrontierCount(Leaves, t, split)
      && r.cutoffs == FrontierCount(Cutoffs, t, split)
      && a.treeNodes == 1 + Below(Plan(g, initial, split))
  {
    var ok, nodes, boards, plies, spots := Prepare(g, initial, depth, split, maxNodes);
    if !ok {
      return TooLarge;
    }
    var scores, n, l, c := RunSpots(g, boards, plies, spots, depth, ranks);
    FrontierCounts(g, initial, depth, split);
    var score, moveIndex := ChooseMove(g, initial, depth, split, nodes, spots, scores);
    a := Found(Result(score, moveIndex, n + (|nodes| - |boards|), l, c), |nodes|);
  }

  method Prepare(g: Rules, initial: Position, depth: nat, split: nat, maxNodes: nat)
    returns (ok: bool, nodes: seq<FrontierNode>, boards: seq<Position>, plies: seq<int>, ghost spots: seq<Spot>)
    requires 1 <= split <= depth
    ensures ok <==> Fits(g, initial, split, maxNodes)
    ensures ok ==>
      && |boards| == |plies| == |spots|
      && (forall k | 0 <= k < |spots| :: spots[k] == Spot(boards[k], plies[k]) && 0 <= spots[k].ply <= depth)
      && spots == Spots(g, initial, split, 0)
      && Walkable(nodes, |spots|) && |nodes| == 1 + Below(Plan(g, initial, split)) && TasksMatch(nodes, |boards|)
      && Shown(View(nodes), Snapshots(spots), 0, 1, 0, Plan(g, initial, split))
  {
    var frontier := new Frontier();
    var board := new Board(initial);
    ok := frontier.Build(g, 0, board, split, 0, maxNodes);
    nodes, boards, plies, spots := frontier.nodes, frontier.boards, frontier.taskPlies, frontier.spots;
    if ok {
      assert spots == Spots(g, initial, split, 0);
      BuiltFrontier(g, initial, split, nodes, spots);
      SpotPlies(g, initial, split, 0, depth);
    }
  }

  /** Expanded positions plus the tasks' own counts are what the frontier counts. */
  lemma FrontierCounts(g: Rules, initial: Position, depth: nat, split: nat)
    requires split <= depth
    ensures var t, plan, spots := RootTree(g, initial, depth), Plan(g, initial, split), Spots(g, initial, split, 0);
      && FrontierCount(Nodes, t, split) == 1 + Below(plan) - |spots| + SpotSum(g, spots, depth, NodeField)
      && FrontierCount(Leaves, t, split) == SpotSum(g, spots, depth, LeafField)
      && FrontierCount(Cutoffs, t, split) == SpotSum(g, spots, depth, CutoffField)
      && |spots| <= 1 + Below(plan)
  {
    FrontierAddsUp(g, initial, split, 0, depth, depth, NodeField);
    FrontierAddsUp(g, initial, split, 0, depth, depth, LeafField);
    FrontierAddsUp(g, initial, split, 0, depth, depth, CutoffField);
    NodesMinusTasks(g, initial, split);
    SpotsCount(g, initial, split, 0);
  }

  /** The parallel loop over the tasks and the reductions after it. */
  method RunSpots(g: Rules, boards: seq<Position>, plies: seq<int>, ghost spots: seq<Spot>, total: nat, ranks: nat)
    returns (scores: seq<int>, nodes: nat, leaves: nat, cutoffs: nat)
    requires |boards| == |plies| == |spots| && forall k | 0 <= k < |spots| :: spots[k] == Spot(boards[k], plies[k])
    requires total <= INF && ranks > 0 && forall k | 0 <= k < |spots| :: 0 <= spots[k].ply <= total
    ensures ScoresExact(g, spots, total, scores)
    ensures nodes == SpotSum(g, spots, total, NodeField)
    ensures leaves == SpotSum(g, spots, total, LeafField)
    ensures cutoffs == SpotSum(g, spots, total, CutoffField)
  {
    var n := |boards|;
    forall k | 0 <= k < n
      ensures 0 <= plies[k] <= total
    {
      assert spots[k].ply == plies[k];
    }
    var tasks := seq(n, k requires 0 <= k < n => Task(boards[k], total - plies[k], plies[k], INF, false));
    var world := new Outcome[ranks, n]((_, _) => UNRUN);
    RunTasks(g, tasks, 0, world);
    ghost var outs := SolvedAll(g, tasks);
    TasksMerge(g, spots, total, outs, world);
    scores := MaxReduce(world);
    nodes, leaves, cutoffs := SumReduce(world);
  }

  /** Combines the scores below each root move and picks the first best one. */
  method ChooseMove(g: Rules, initial: Position, depth: nat, split: nat,
                    nodes: seq<FrontierNode>, ghost spots: seq<Spot>, scores: seq<int>)
    returns (score: int, moveIndex: int)
    requires 1 <= split <= depth && InRange(depth, 0)
    requires spots == Spots(g, initial, split, 0) && ScoresExact(g, spots, depth, scores)
    requires Walkable(nodes, |scores|) && |nodes| == 1 + Below(Plan(g, initial, split))
    requires Shown(View(nodes), Snapshots(spots), 0, 1, 0, Plan(g, initial, split))
    ensures Answers(RootTree(g, initial, depth), score, moveIndex)
  {
    RootIsSound(g, initial, depth);
    SpotsCount(g, initial, split, 0);
    var root := nodes[0];
    assert View(nodes)[0] == TreeNode(root.firstChild, root.childCount, root.taskIndex, 0);
    assert spots[0..|spots|] == spots;
    if root.taskIndex >= 0 {
      CombinedIsValue(g, initial, split, 0, depth, depth, nodes, spots, scores, 0, 1, 0);
      return scores[root.taskIndex], -1;
    }
    ghost var kids := Kids(g, initial, depth, 0, 0);
    SpotsFromCount(g, initial, split, 0, 0);
    CombinedKids(g, initial, split, 0, depth, depth, 0, nodes, spots, scores, 1, 1 + g.Width(initial), 0);
    score, moveIndex := -INF, -1;
    for i := 0 to root.childCount
      invariant BestSoFar(kids, i, score, moveIndex)
    {
      EachCombinedNth(nodes, scores, 1, kids, i);
      var value := Combine(nodes, root.firstChild + i, scores);
      var s := -value;
      NthIsSound(kids, i);
      ValueInRange(Nth(kids, i));
      SelectStep(kids, i, score, moveIndex, s);
      if s > score {
        score, moveIndex := s, i;
      }
    }
    SelectDone(kids, score, moveIndex);
  }

  lemma BuiltFrontier(g: Rules, p: Position, split: nat, nodes: seq<FrontierNode>, spots: seq<Spot>)
    requires Expanded(View([EMPTY]), Snapshots([]), View(nodes), Snapshots(spots), 0, Plan(g, p, split))
    ensures Walkable(nodes, |spots|) && |nodes| == 1 + Below(Plan(g, p, split))
    ensures Shown(View(nodes), Snapshots(spots), 0, 1, 0, Plan(g, p, split))
    ensures TasksMatch(nodes, |spots|)
  {
    TasksAreSlots(g, p, split, nodes, spots);
    var view, leaves, plan := View(nodes), Snapshots(spots), Plan(g, p, split);
    forall q | 0 <= q < |nodes|
      ensures NodeWalkable(nodes, |spots|, q)
    {
      BlockIsLinked(view, leaves, 0, 1, 0, plan, q);
      assert SlotLinked(view, leaves, q);
    }
  }

  predicate HasTask(nodes: seq<FrontierNode>, q: int, k: int) {
    0 <= q < |nodes| && nodes[q].taskIndex == k
  }

  ghost predicate TaskHasOneSlot(nodes: seq<FrontierNode>, k: int) {
    exists q :: HasTask(nodes, q, k) && forall q' | HasTask(nodes, q', k) :: q' == q
  }

  /** Every stored position is the task of exactly one slot, and every task index is stored. */
  ghost predicate TasksMatch(nodes: seq<FrontierNode>, tasks: nat) {
    && (forall k | 0 <= k < tasks :: TaskHasOneSlot(nodes, k))
    && (forall q, k: nat | HasTask(nodes, q, k) :: k < tasks)
  }

  /** Task indices and stored positions are in one-to-one correspondence. */
  lemma TasksAreSlots(g: Rules, p: Position, split: nat, nodes: seq<FrontierNode>, spots: seq<Spot>)
    requires Expanded(View([EMPTY]), Snapshots([]), View(nodes), Snapshots(spots), 0, Plan(g, p, split))
    ensures TasksMatch(nodes, |spots|)
  {
    var view, leaves, plan := View(nodes), Snapshots(spots), Plan(g, p, split);
    SingleRoot(view, leaves, plan);
    LeavesAreSlots(view, leaves, Cons(plan, Nil));
    forall k | 0 <= k < |spots| ensures TaskHasOneSlot(nodes, k) {
      assert HasOneSlot(view, k);
      SameSlots(nodes, k);
    }
    forall q, k: nat | HasTask(nodes, q, k) ensures k < |spots| {
      assert HasLeaf(view, q, k);
    }
  }

  lemma SameSlots(nodes: seq<FrontierNode>, k: int)
    requires HasOneSlot(View(nodes), k)
    ensures TaskHasOneSlot(nodes, k)
  {
    assert forall q :: HasTask(nodes, q, k) <==> HasLeaf(View(nodes), q, k);
  }

  lemma {:induction false} SpotPlies(g: Rules, p: Position, levels: nat, ply: nat, total: nat)
    requires ply + levels <= total
    ensures forall k | 0 <= k < |Spots(g, p, levels, ply)| :: 0 <= Spots(g, p, levels, ply)[k].ply <= total
    decreases levels, g.Width(p) + 1
  {
    if !IsTask(g, p, levels) {
      SpotPliesFrom(g, p, levels, ply, total, 0);
    }
  }

  lemma {:induction false} SpotPliesFrom(g: Rules, p: Position, levels: nat, ply: nat, total: nat, i: nat)
    requires levels > 0 && i <= g.Width(p) && ply + levels <= total
    ensures forall k | 0 <= k < |SpotsFrom(g, p, levels, ply, i)| ::
      0 <= SpotsFrom(g, p, levels, ply, i)[k].ply <= total
    decreases levels, g.Width(p) - i
  {
    if i < g.Width(p) {
      SpotPlies(g, g.Child(p, i), levels - 1, ply + 1, total);
      SpotPliesFrom(g, p, levels, ply, total, i + 1);
    }
  }

  /** The tasks of a frontier, whose outcomes are what the reductions deliver. */
  ghost predicate TasksOf(g: Rules, spots: seq<Spot>, total: nat, outs: seq<Outcome>) {
    |outs| == |spots| && forall k | 0 <= k < |spots| :: outs[k] == Searched(SpotTree(g, spots[k], total), INF, false)
  }

  lemma TaskScoresExact(g: Rules, spots: seq<Spot>, total: nat, outs: seq<Outcome>, k: nat)
    requires TasksOf(g, spots, total, outs) && total <= INF && k < |spots| && 0 <= spots[k].ply <= total
    ensures outs[k].score == Value(SpotTree(g, spots[k], total)) && outs[k].score > -INF
  {
    GameTreeIsSound(g, spots[k].pos, total - spots[k].ply, spots[k].ply);
    FullIsExact(SpotTree(g, spots[k], total));
    ValueInRange(SpotTree(g, spots[k], total));
  }

  /** After the parallel loop the reductions give each task's own score and the total counts. */
  lemma TasksMerge(g: Rules, spots: seq<Spot>, total: nat, outs: seq<Outcome>, world: array2<Outcome>)
    requires TasksOf(g, spots, total, outs) && total <= INF && world.Length0 > 0 && world.Length1 == |outs|
    requires forall k | 0 <= k < |spots| :: 0 <= spots[k].ply <= total
    requires forall r, i | 0 <= r < world.Length0 && 0 <= i < |outs| ::
      world[r, i] == if RoundRobin(|outs|, world.Length0)[i] == r then outs[i] else UNRUN
    ensures forall scores: seq<int> | |scores| == |outs| &&
        (forall i | 0 <= i < |outs| :: scores[i] == MaxAt(Rows(world), i)) :: ScoresExact(g, spots, total, scores)
    ensures forall f :: SumAll(Rows(world), f) == SpotSum(g, spots, total, f)
  {
    var deal := RoundRobin(|outs|, world.Length0);
    forall i | 0 <= i < |outs|
      ensures outs[i].score == Value(SpotTree(g, spots[i], total)) && outs[i].score > -INF
    {
      TaskScoresExact(g, spots, total, outs, i);
    }
    MergedScores(Rows(world), outs, deal, world.Length0, false);
    forall f
      ensures SumAll(Rows(world), f) == SpotSum(g, spots, total, f)
    {
      MergedSums(Rows(world), outs, deal, world.Length0, false, f);
      SpotSumIsSum(g, spots, total, outs, f);
    }
  }
}
