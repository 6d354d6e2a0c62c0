/** Searching on the device: the whole tree at once, or chunk by chunk under alpha-beta. */
module Gpu {
  import opened Chess
  import opened AlphaBeta
  import opened Windows
  import opened Counting
  import opened FlatTree
  import opened Device
  import opened Schedule
  import opened Root
  import opened ParallelRoot

  datatype Refusal = TooDeep | NothingToOffload | TooLarge | NotOnDevice

  datatype Answer = Found(result: Result) | Refused(reason: Refusal)

  // ------------------------------------------------------------------ a batch of subtrees

  /** The device counts its early cutoffs only. */
  function DeviceCounter(f: Field): Counter {
    match f
    case NodeField => Nodes
    case LeafField => Leaves
    case CutoffField => Early
  }

  function OnDevice(t: Tree, negate: bool): Outcome {
    var s := Score(t, -INF, INF);
    Outcome(if negate then -s else s, FullCount(Nodes, t), FullCount(Leaves, t), FullCount(Early, t))
  }

  function Indices(n: nat): (s: set<nat>)
    ensures forall i: nat :: i in s <==> i < n
  {
    if n == 0 then {} else Indices(n - 1) + {n - 1}
  }

  /** The subtrees at slots `first`, ..., `first + n - 1`, searched in an arbitrary order. */
  method DeviceBatch(m: Store, first: nat, n: nat, negate: bool) returns (outs: seq<Outcome>)
    requires m.Valid() && first + n <= |m.nodes|
    requires forall k | first <= k < first + n :: Height(Decode(m.nodes, m.leaves, k)) <= MAX_GPU_DEPTH + 1
    ensures |outs| == n
    ensures forall i | 0 <= i < n :: outs[i] == OnDevice(Decode(m.nodes, m.leaves, first + i), negate)
  {
    var results := new Outcome[n](_ => UNRUN);
    var todo := Indices(n);
    while todo != {}
      invariant forall i | i in todo :: i < n
      invariant forall i | 0 <= i < n && i !in todo ::
        results[i] == OnDevice(Decode(m.nodes, m.leaves, first + i), negate)
      decreases todo
    {
      var i :| i in todo;
      var value, visited, leafVisits, cutoffs, _ := DeviceSearch(m, first + i);
      results[i] := Outcome(if negate then -value else value, visited, leafVisits, cutoffs);
      todo := todo - {i};
    }
    outs := results[..];
  }

  /** What the moves of a node count when each is searched alone on the device. */
  lemma {:induction false} SumOnDevice(ts: Trees, outs: seq<Outcome>, f: Field)
    requires |outs| == Length(ts) && forall i | 0 <= i < |outs| :: outs[i] == OnDevice(Nth(ts, i), true)
    ensures Sum(outs, f) == EachCount(DeviceCounter(f), ts, INF)
  {
    if ts.Cons? {
      SumFromFront(outs, f);
      assert outs[0] == OnDevice(Nth(ts, 0), true);
      forall i | 0 <= i < |outs[1..]|
        ensures outs[1..][i] == OnDevice(Nth(ts.tail, i), true)
      {
        assert outs[1..][i] == outs[i + 1] && Nth(ts, i + 1) == Nth(ts.tail, i);
      }
      SumOnDevice(ts.tail, outs[1..], f);
    }
  }

  method AddUp(outs: seq<Outcome>) returns (nodes: nat, leaves: nat, cutoffs: nat)
    ensures nodes == Sum(outs, NodeField) && leaves == Sum(outs, LeafField) && cutoffs == Sum(outs, CutoffField)
  {
    nodes, leaves, cutoffs := 0, 0, 0;
    for i := 0 to |outs|
      invariant nodes == Sum(outs[..i], NodeField)
      invariant leaves == Sum(outs[..i], LeafField)
      invariant cutoffs == Sum(outs[..i], CutoffField)
    {
      assert outs[..i + 1][..i] == outs[..i];
      nodes, leaves, cutoffs := nodes + outs[i].nodes, leaves + outs[i].leaves, cutoffs + outs[i].cutoffs;
    }
    assert outs[..|outs|] == outs;
  }

  lemma {:induction false} NthDecoded(m: Store, from: nat, to: nat, i: nat)
    requires m.Valid() && from + i < to <= |m.nodes|
    ensures Length(DecodeKids(m.nodes, m.leaves, from, to)) == to - from
    ensures Nth(DecodeKids(m.nodes, m.leaves, from, to), i) == Decode(m.nodes, m.leaves, from + i)
    ensures Height(Decode(m.nodes, m.leaves, from + i)) <= HeightRest(DecodeKids(m.nodes, m.leaves, from, to))
    decreases |m.nodes| - from
  {
    if i > 0 {
      NthDecoded(m, from + 1, to, i - 1);
    } else if from + 1 < to {
      NthDecoded(m, from + 1, to, 0);
    }
  }

  // -------------------------------------------------------------------- the whole tree

  /** The array starts with one slot a root move, whatever the limit. */
  predicate FitsAll(kids: Trees, maxNodes: nat) {
    BelowAll(kids) == 0 || Length(kids) + BelowAll(kids) <= maxNodes
  }

  /** The array while the root slots are being expanded. */
  predicate RootsPartway(nodes: seq<TreeNode>, leaves: seq<LeafBoard>, n: nat, done: Trees) {
    && Length(done) <= n
    && |nodes| == n + BelowAll(done)
    && |leaves| == LeafCountAll(done)
    && (forall q | Length(done) <= q < n :: nodes[q] == BLANK)
    && ShownAll(nodes, leaves, 0, n, 0, done)
  }

  lemma RootExpanded(nodes: seq<TreeNode>, leaves: seq<LeafBoard>, nodes': seq<TreeNode>, leaves': seq<LeafBoard>,
                     n: nat, done: Trees, t: Tree)
    requires RootsPartway(nodes, leaves, n, done) && Length(done) < n
    requires Expanded(nodes, leaves, nodes', leaves', Length(done), t)
    ensures RootsPartway(nodes', leaves', n, Snoc(done, t))
    ensures Length(Snoc(done, t)) == Length(done) + 1
    ensures BelowAll(Snoc(done, t)) == BelowAll(done) + Below(t)
  {
    ShownAllFrame(nodes, nodes', leaves, leaves', 0, n, 0, done);
    SnocShown(nodes', leaves', 0, n, 0, done, t);
  }

  method BuildRoots(g: Rules, initial: Position, moves: seq<Move>, depth: nat, maxNodes: nat)
    returns (ok: bool, m: Store)
    requires moves == g.Moves(initial) && depth > 0 && !g.Over(initial)
    ensures var kids := Kids(g, initial, depth, 0, 0);
      && (ok <==> FitsAll(kids, maxNodes))
      && |m.nodes| <= Max(maxNodes, |moves|)
      && (ok ==>
            && m.Valid() && Length(kids) == |moves| <= |m.nodes|
            && DecodeKids(m.nodes, m.leaves, 0, |moves|) == kids)
  {
    ghost var kids := Kids(g, initial, depth, 0, 0);
    ghost var todo, done := kids, Nil;
    KidsLength(g, initial, depth, 0, 0);
    var tree := new FlatTree(|moves|);
    var n := |moves|;
    for i := 0 to n
      invariant todo == Kids(g, initial, depth, 0, i) && Append(done, todo) == kids && Length(done) == i
      invariant BelowAll(done) == 0 || |tree.nodes| <= maxNodes
      invariant RootsPartway(tree.nodes, tree.leaves, n, done)
      invariant fresh(tree)
    {
      ghost var nodes0, leaves0 := tree.nodes, tree.leaves;
      AppendSizes(done, todo);
      ok := PlayAndBuild(g, tree, i, initial, moves[i], depth, maxNodes);
      if !ok {
        m := Store(tree.nodes, tree.leaves);
        return;
      }
      RootExpanded(nodes0, leaves0, tree.nodes, tree.leaves, n, done, todo.head);
      SnocAppend(done, todo);
      done, todo := Snoc(done, todo.head), todo.tail;
    }
    AppendNil(done);
    BuiltForest(tree.nodes, tree.leaves, done);
    ok := true;
    m := Store(tree.nodes, tree.leaves);
  }

  method PlayAndBuild(g: Rules, tree: FlatTree, index: nat, initial: Position, move: Move, depth: nat, maxNodes: nat)
    returns (ok: bool)
    requires index < |tree.nodes| && tree.nodes[index] == BLANK && depth > 0
    modifies tree
    ensures |tree.nodes| <= Max(maxNodes, old(|tree.nodes|))
    ensures var t := GameTree(g, g.Play(initial, move), depth - 1, 1);
      && (ok <==> Below(t) == 0 || old(|tree.nodes|) + Below(t) <= maxNodes)
      && (ok ==> Expanded(old(tree.nodes), old(tree.leaves), tree.nodes, tree.leaves, index, t))
  {
    var board := new Board(initial);
    board.MakeMove(g, move);
    ok := tree.BuildNode(g, index, board, depth - 1, 1, maxNodes);
  }

  /** `onDevice` is whether the target region really runs on a device. */
  method GpuSearch(g: Rules, initial: Position, moves: seq<Move>, depth: nat, maxNodes: nat,
                   requireDevice: bool, onDevice: bool) returns (a: Answer)
    requires moves == g.Moves(initial) && depth > 0 && InRange(depth, 0)
    ensures a.Refused? <==>
      || depth > MAX_GPU_DEPTH
      || (g.Over(initial) && requireDevice)
      || (!g.Over(initial) && (!FitsAll(Kids(g, initial, depth, 0, 0), maxNodes) || (requireDevice && !onDevice)))
    ensures a.Found? ==>
      var t, r := RootTree(g, initial, depth), a.result;
      && Answers(t, r.score, r.moveIndex)
      && r.nodes == FrontierCount(Nodes, t, 1)
      && r.leaves == FrontierCount(Leaves, t, 1)
      && r.cutoffs == FrontierCount(Early, t, 1)
      && r.cutoffs + r.nodes <= Size(Nodes, t)
      && (r.cutoffs == 0 <==> r.nodes == Size(Nodes, t))
    ensures a.Refused? ==>
      a.reason == (if depth > MAX_GPU_DEPTH then TooDeep
                   else if g.Over(initial) then NothingToOffload
                   else if !FitsAll(Kids(g, initial, depth, 0, 0), maxNodes) then TooLarge
                   else NotOnDevice)
  {
    if depth > MAX_GPU_DEPTH {
      return Refused(TooDeep);
    }
    RootIsSound(g, initial, depth);
    if |moves| == 0 || g.Drawn(initial) {
      if requireDevice {
        return Refused(NothingToOffload);
      }
      var r := SerialSearch(g, initial, moves, depth, true);
      return Found(r);
    }
    var ok, m := BuildRoots(g, initial, moves, depth, maxNodes);
    if !ok {
      return Refused(TooLarge);
    }
    if requireDevice && !onDevice {
      return Refused(NotOnDevice);
    }
    ghost var kids := Kids(g, initial, depth, 0, 0);
    KidsHeight(g, initial, depth, 0, 0);
    var outs := KidsOnDevice(m, 0, |moves|, kids);
    var score, moveIndex := PickBest(outs, kids);
    var nodes, leaves, cutoffs := AddUp(outs);
    OneLevelIsEach(Nodes, kids);
    OneLevelIsEach(Leaves, kids);
    OneLevelIsEach(Early, kids);
    EachEarlySkips(kids, INF);
    a := Found(Result(score, moveIndex, 1 + nodes, leaves, cutoffs));
  }

  /** Searches the children of a node on the device. */
  method KidsOnDevice(m: Store, first: nat, n: nat, ghost kids: Trees) returns (outs: seq<Outcome>)
    requires m.Valid() && 0 < n == Length(kids) && first + n <= |m.nodes|
    requires DecodeKids(m.nodes, m.leaves, first, first + n) == kids && HeightRest(kids) <= MAX_GPU_DEPTH
    ensures |outs| == n && forall i | 0 <= i < n :: outs[i] == OnDevice(Nth(kids, i), true)
    ensures Sum(outs, NodeField) == EachCount(Nodes, kids, INF)
    ensures Sum(outs, LeafField) == EachCount(Leaves, kids, INF)
    ensures Sum(outs, CutoffField) == EachCount(Early, kids, INF)
  {
    forall k | first <= k < first + n
      ensures Decode(m.nodes, m.leaves, k) == Nth(kids, k - first)
      ensures Height(Decode(m.nodes, m.leaves, k)) <= MAX_GPU_DEPTH
    {
      NthDecoded(m, first, first + n, k - first);
    }
    outs := DeviceBatch(m, first, n, true);
    forall i | 0 <= i < n
      ensures outs[i] == OnDevice(Nth(kids, i), true)
    {
      assert outs[i] == OnDevice(Decode(m.nodes, m.leaves, first + i), true);
    }
    SumOnDevice(kids, outs, NodeField);
    SumOnDevice(kids, outs, LeafField);
    SumOnDevice(kids, outs, CutoffField);
  }

  method PickBest(outs: seq<Outcome>, ghost kids: Trees) returns (score: int, moveIndex: int)
    requires AllSound(kids) && kids.Cons? && |outs| == Length(kids)
    requires forall i | 0 <= i < |outs| :: outs[i] == OnDevice(Nth(kids, i), true)
    ensures Answers(Inner(kids), score, moveIndex)
  {
    score, moveIndex := -INF, -1;
    for i := 0 to |outs|
      invariant BestSoFar(kids, i, score, moveIndex)
    {
      NthIsSound(kids, i);
      FullIsExact(Nth(kids, i));
      ValueInRange(Nth(kids, i));
      SelectStep(kids, i, score, moveIndex, outs[i].score);
      if outs[i].score > score {
        score, moveIndex := outs[i].score, i;
      }
    }
    SelectDone(kids, score, moveIndex);
  }
}
