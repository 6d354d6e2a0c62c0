/** The parallel loop over independent searches, and the reductions after it. */
module Parallel {
  import opened Chess
  import opened AlphaBeta
  import opened Schedule

  /** One independent search: below `pos`, scores from -INF up to `beta`. Root moves are
      stored with the score of the side that plays them. */
  datatype Task = Task(pos: Position, depth: nat, ply: int, beta: int, negate: bool)

  function TaskTree(g: Rules, task: Task): Tree {
    GameTree(g, task.pos, task.depth, task.ply)
  }

  function Searched(t: Tree, beta: int, negate: bool): Outcome {
    var s := Score(t, -INF, beta);
    Outcome(if negate then -s else s,
            Count(Nodes, t, -INF, beta), Count(Leaves, t, -INF, beta), Count(Cutoffs, t, -INF, beta))
  }

  function Solved(g: Rules, task: Task): Outcome {
    Searched(TaskTree(g, task), task.beta, task.negate)
  }

  function SolvedAll(g: Rules, tasks: seq<Task>): seq<Outcome> {
    seq(|tasks|, i requires 0 <= i < |tasks| => Solved(g, tasks[i]))
  }

  /** An independent search can only return a score above the filler. */
  lemma SolvedAboveFiller(g: Rules, task: Task)
    requires InRange(task.depth, task.ply) && -INF < task.beta
    ensures -INF < Solved(g, task).score < INF
  {
    GameTreeIsSound(g, task.pos, task.depth, task.ply);
    SearchIsFailSoft(TaskTree(g, task), -INF, task.beta);
  }

  method RunTask(g: Rules, task: Task) returns (o: Outcome)
    ensures o == Solved(g, task)
  {
    var board := new Board(task.pos);
    var stats := new Stats();
    var s := Negamax(g, board, task.depth, task.ply, -INF, task.beta, stats, true);
    o := Outcome(if task.negate then -s else s, stats.nodes, stats.leaves, stats.cutoffs);
  }

  function Rows(world: array2<Outcome>): seq<seq<Outcome>>
    reads world
  {
    seq(world.Length0, r requires 0 <= r < world.Length0 reads world =>
      seq(world.Length1, i requires 0 <= i < world.Length1 reads world => world[r, i]))
  }

  /** Runs tasks `first`, `first + 1`, ... of every rank. The loop takes the pairs of rank
      and task in an arbitrary order, as threads and ranks may. */
  method RunTasks(g: Rules, tasks: seq<Task>, first: nat, world: array2<Outcome>)
    requires world.Length0 > 0 && world.Length1 == |tasks|
    requires forall r, i | 0 <= r < world.Length0 && first <= i < |tasks| :: world[r, i] == UNRUN
    modifies world
    ensures forall r, i | 0 <= r < world.Length0 && 0 <= i < |tasks| ::
      world[r, i] == if i < first then old(world[r, i])
                     else if RoundRobin(|tasks|, world.Length0)[i] == r then Solved(g, tasks[i]) else UNRUN
  {
    var ranks, n := world.Length0, |tasks|;
    var deal := RoundRobin(n, ranks);
    var todo := set i | first <= i < n :: (deal[i], i);
    ghost var all := todo;
    while todo != {}
      invariant todo <= all
      invariant forall r, i | 0 <= r < ranks && 0 <= i < n ::
        world[r, i] == if i < first then old(world[r, i])
                       else if deal[i] == r && (r, i) !in todo then Solved(g, tasks[i]) else UNRUN
      decreases todo
    {
      var slot :| slot in todo;
      var (r, i) := slot;
      var o := RunTask(g, tasks[i]);
      world[r, i] := o;
      todo := todo - {slot};
    }
  }

  method MaxReduce(world: array2<Outcome>) returns (combined: seq<int>)
    ensures |combined| == world.Length1
    ensures forall i | 0 <= i < world.Length1 :: combined[i] == MaxAt(Rows(world), i)
  {
    ghost var rows := Rows(world);
    combined := seq(world.Length1, _ => -INF);
    for r := 0 to world.Length0
      invariant |combined| == world.Length1
      invariant forall i | 0 <= i < world.Length1 :: combined[i] == MaxAt(rows[..r], i)
    {
      assert rows[..r + 1][..r] == rows[..r];
      combined := seq(world.Length1, i requires 0 <= i < world.Length1 && i < |combined| reads world =>
        Max(combined[i], world[r, i].score));
    }
    assert rows[..world.Length0] == rows;
  }

  method SumReduce(world: array2<Outcome>) returns (nodes: nat, leaves: nat, cutoffs: nat)
    ensures nodes == SumAll(Rows(world), NodeField)
    ensures leaves == SumAll(Rows(world), LeafField)
    ensures cutoffs == SumAll(Rows(world), CutoffField)
  {
    ghost var rows := Rows(world);
    nodes, leaves, cutoffs := 0, 0, 0;
    for r := 0 to world.Length0
      invariant nodes == SumAll(rows[..r], NodeField)
      invariant leaves == SumAll(rows[..r], LeafField)
      invariant cutoffs == SumAll(rows[..r], CutoffField)
    {
      var n, l, c := LocalSums(world, r);
      assert rows[..r + 1][..r] == rows[..r];
      nodes, leaves, cutoffs := nodes + n, leaves + l, cutoffs + c;
    }
    assert rows[..world.Length0] == rows;
  }

  method LocalSums(world: array2<Outcome>, r: nat) returns (nodes: nat, leaves: nat, cutoffs: nat)
    requires r < world.Length0
    ensures nodes == Sum(Rows(world)[r], NodeField)
    ensures leaves == Sum(Rows(world)[r], LeafField)
    ensures cutoffs == Sum(Rows(world)[r], CutoffField)
  {
    ghost var row := Rows(world)[r];
    nodes, leaves, cutoffs := 0, 0, 0;
    for i := 0 to world.Length1
      invariant nodes == Sum(row[..i], NodeField)
      invariant leaves == Sum(row[..i], LeafField)
      invariant cutoffs == Sum(row[..i], CutoffField)
    {
      assert row[..i + 1][..i] == row[..i];
      var o := world[r, i];
      nodes, leaves, cutoffs := nodes + o.nodes, leaves + o.leaves, cutoffs + o.cutoffs;
    }
    assert row[..world.Length1] == row;
  }
}
