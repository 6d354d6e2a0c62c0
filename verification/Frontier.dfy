/** A deeper frontier of independent positions, recombined by negamax.

    It is laid out like a flat tree whose leaves are the positions. */
module Frontier {
  import opened Chess
  import opened FlatTree

  datatype FrontierNode = FrontierNode(firstChild: int, childCount: nat, taskIndex: int)

  const EMPTY := FrontierNode(-1, 0, -1)

  /** A position to be searched on its own, and how far below the root it is. */
  datatype Spot = Spot(pos: Position, ply: int)

  // ----------------------------------------------------------------- what is to be built

  predicate IsTask(g: Rules, p: Position, levels: nat) {
    levels == 0 || g.Over(p)
  }

  /** The expanded part of the tree; every position that is not expanded becomes a leaf. */
  function Plan(g: Rules, p: Position, levels: nat): Tree
    decreases levels, g.Width(p) + 1
  {
    if IsTask(g, p, levels) then Horizon(p.squares, p.whiteToMove)
    else Inner(PlanKids(g, p, levels, 0))
  }

  function PlanKids(g: Rules, p: Position, levels: nat, i: nat): Trees
    requires levels > 0 && i <= g.Width(p)
    decreases levels, g.Width(p) - i
  {
    if i == g.Width(p) then Nil
    else Cons(Plan(g, g.Child(p, i), levels - 1), PlanKids(g, p, levels, i + 1))
  }

  /** The tasks, from left to right. */
  function Spots(g: Rules, p: Position, levels: nat, ply: int): seq<Spot>
    decreases levels, g.Width(p) + 1
  {
    if IsTask(g, p, levels) then [Spot(p, ply)]
    else SpotsFrom(g, p, levels, ply, 0)
  }

  function SpotsFrom(g: Rules, p: Position, levels: nat, ply: int, i: nat): seq<Spot>
    requires levels > 0 && i <= g.Width(p)
    decreases levels, g.Width(p) - i
  {
    if i == g.Width(p) then []
    else Spots(g, g.Child(p, i), levels - 1, ply + 1) + SpotsFrom(g, p, levels, ply, i + 1)
  }

  lemma {:induction false} SpotsCount(g: Rules, p: Position, levels: nat, ply: int)
    ensures |Spots(g, p, levels, ply)| == LeafCount(Plan(g, p, levels))
    decreases levels, g.Width(p) + 1
  {
    if !IsTask(g, p, levels) {
      SpotsFromCount(g, p, levels, ply, 0);
    }
  }

  lemma {:induction false} SpotsFromCount(g: Rules, p: Position, levels: nat, ply: int, i: nat)
    requires levels > 0 && i <= g.Width(p)
    ensures |SpotsFrom(g, p, levels, ply, i)| == LeafCountAll(PlanKids(g, p, levels, i))
    ensures Length(PlanKids(g, p, levels, i)) == g.Width(p) - i
    decreases levels, g.Width(p) - i
  {
    if i < g.Width(p) {
      SpotsCount(g, g.Child(p, i), levels - 1, ply + 1);
      SpotsFromCount(g, p, levels, ply, i + 1);
    }
  }

  // ---------------------------------------------------------------------- building it

  /** A frontier laid out like a flat tree whose leaves are the task positions. */
  function View(nodes: seq<FrontierNode>): seq<TreeNode> {
    seq(|nodes|, q requires 0 <= q < |nodes| =>
      TreeNode(nodes[q].firstChild, nodes[q].childCount, nodes[q].taskIndex, 0))
  }

  function Snapshots(spots: seq<Spot>): seq<LeafBoard> {
    seq(|spots|, k requires 0 <= k < |spots| => Snapshot(spots[k].pos.squares, spots[k].pos.whiteToMove))
  }

  /** The frontier while the moves of slot `index` are being expanded: `added` are the tasks
      of the first `i` moves. `nodes0` and `spots0` are the frontier at the start. */
  ghost predicate Halfway(g: Rules, p: Position, levels: nat, ply: int, i: nat,
                          nodes: seq<FrontierNode>, spots: seq<Spot>, nodes0: seq<FrontierNode>, spots0: seq<Spot>,
                          index: nat, done: Trees, added: seq<Spot>)
    requires levels > 0 && i <= g.Width(p)
  {
    && Length(done) == i
    && Append(done, PlanKids(g, p, levels, i)) == PlanKids(g, p, levels, 0)
    && Partway(View(nodes), Snapshots(spots), View(nodes0), |spots0|, index, g.Width(p), done)
    && spots == spots0 + added
    && added + SpotsFrom(g, p, levels, ply, i) == SpotsFrom(g, p, levels, ply, 0)
  }

  lemma NoMoveAdded(g: Rules, p: Position, levels: nat, ply: int, nodes: seq<FrontierNode>, spots: seq<Spot>,
                    nodes0: seq<FrontierNode>, index: nat)
    requires levels > 0 && index < |nodes0|
    requires nodes == nodes0[index := EMPTY.(firstChild := |nodes0|, childCount := g.Width(p))]
      + seq(g.Width(p), _ => EMPTY)
    ensures Halfway(g, p, levels, ply, 0, nodes, spots, nodes0, spots, index, Nil, [])
  {
  }

  /** The slot of the next move is still empty, and the tree so far is smaller than the whole. */
  lemma NextSlot(g: Rules, p: Position, levels: nat, ply: int, i: nat, nodes: seq<FrontierNode>, spots: seq<Spot>,
                 nodes0: seq<FrontierNode>, spots0: seq<Spot>, index: nat, done: Trees, added: seq<Spot>)
    requires levels > 0 && i < g.Width(p)
    requires Halfway(g, p, levels, ply, i, nodes, spots, nodes0, spots0, index, done, added)
    ensures |nodes0| + i < |nodes| && nodes[|nodes0| + i] == EMPTY
    ensures |nodes| + Below(Plan(g, g.Child(p, i), levels - 1))
      <= |nodes0| + g.Width(p) + BelowAll(PlanKids(g, p, levels, 0))
  {
    AppendSizes(done, PlanKids(g, p, levels, i));
    assert View(nodes)[|nodes0| + i] == BLANK;
  }

  lemma MoveAdded(g: Rules, p: Position, levels: nat, ply: int, i: nat,
                  nodes: seq<FrontierNode>, spots: seq<Spot>, nodes': seq<FrontierNode>, spots': seq<Spot>,
                  nodes0: seq<FrontierNode>, spots0: seq<Spot>, index: nat, done: Trees, added: seq<Spot>)
    requires levels > 0 && i < g.Width(p)
    requires Halfway(g, p, levels, ply, i, nodes, spots, nodes0, spots0, index, done, added)
    requires var c := g.Child(p, i);
      && spots' == spots + Spots(g, c, levels - 1, ply + 1)
      && Expanded(View(nodes), Snapshots(spots), View(nodes'), Snapshots(spots'), |nodes0| + i, Plan(g, c, levels - 1))
    ensures var c := g.Child(p, i);
      Halfway(g, p, levels, ply, i + 1, nodes', spots', nodes0, spots0, index,
              Snoc(done, Plan(g, c, levels - 1)), added + Spots(g, c, levels - 1, ply + 1))
  {
    var c := g.Child(p, i);
    ChildExpanded(View(nodes), Snapshots(spots), View(nodes'), Snapshots(spots'),
                  View(nodes0), |spots0|, index, g.Width(p), done, Plan(g, c, levels - 1));
    SnocAppend(done, PlanKids(g, p, levels, i));
    var here, later := Spots(g, c, levels - 1, ply + 1), SpotsFrom(g, p, levels, ply, i + 1);
    assert (added + here) + later == added + (here + later);
  }

  lemma AllMovesAdded(g: Rules, p: Position, levels: nat, ply: int, nodes: seq<FrontierNode>, spots: seq<Spot>,
                      nodes0: seq<FrontierNode>, spots0: seq<Spot>, index: nat, done: Trees, added: seq<Spot>)
    requires levels > 0 && !g.Over(p)
    requires Halfway(g, p, levels, ply, g.Width(p), nodes, spots, nodes0, spots0, index, done, added)
    ensures done == PlanKids(g, p, levels, 0)
    ensures spots == spots0 + SpotsFrom(g, p, levels, ply, 0)
    ensures Expanded(View(nodes0), Snapshots(spots0), View(nodes), Snapshots(spots), index, Inner(done))
  {
    AppendNil(done);
    assert added + [] == added;
  }

  class Frontier {
    var nodes: seq<FrontierNode>
    var boards: seq<Position>
    var taskPlies: seq<int>

    ghost var spots: seq<Spot>

    ghost predicate Valid()
      reads this
    {
      && |boards| == |taskPlies| == |spots|
      && forall k | 0 <= k < |spots| :: spots[k] == Spot(boards[k], taskPlies[k])
    }

    constructor ()
      ensures Valid() && nodes == [EMPTY] && spots == []
    {
      nodes, boards, taskPlies := [EMPTY], [], [];
      spots := [];
    }

    /** Expands the position on the board into slot `index`; fails when the frontier would
        grow beyond `maxNodes`. */
    method Build(g: Rules, index: nat, board: Board, levels: nat, ply: int, maxNodes: nat) returns (ok: bool)
      requires Valid() && index < |nodes| && nodes[index] == EMPTY
      modifies this, board
      ensures Valid()
      ensures var plan := Plan(g, old(board.pos), levels);
        && (ok <==> Below(plan) == 0 || old(|nodes|) + Below(plan) <= maxNodes)
        && (ok ==> Expanded(View(old(nodes)), Snapshots(old(spots)), View(nodes), Snapshots(spots), index, plan))
      ensures ok ==> spots == old(spots) + Spots(g, old(board.pos), levels, ply)
      ensures ok ==> board.pos == old(board.pos) && board.made == old(board.made)
      decreases levels, 2
    {
      var moves := g.Moves(board.pos);
      if levels == 0 || |moves| == 0 || g.Drawn(board.pos) {
        AddTask(index, board.pos, ply);
        return true;
      }
      SpotsFromCount(g, board.pos, levels, ply, 0);
      if |nodes| + |moves| > maxNodes {
        return false;
      }
      ok := BuildChildren(g, index, board, moves, levels, ply, maxNodes);
    }

    method AddTask(index: nat, p: Position, ply: int)
      requires Valid() && index < |nodes| && nodes[index] == EMPTY
      modifies this
      ensures Valid() && spots == old(spots) + [Spot(p, ply)]
      ensures Expanded(View(old(nodes)), Snapshots(old(spots)), View(nodes), Snapshots(spots),
                       index, Horizon(p.squares, p.whiteToMove))
    {
      nodes := nodes[index := EMPTY.(taskIndex := |boards|)];
      boards := boards + [p];
      taskPlies := taskPlies + [ply];
      spots := spots + [Spot(p, ply)];
    }

    method BuildChildren(g: Rules, index: nat, board: Board, moves: seq<Move>, levels: nat, ply: int, maxNodes: nat)
      returns (ok: bool)
      requires Valid() && index < |nodes| && nodes[index] == EMPTY
      requires levels > 0 && moves == g.Moves(board.pos) && !g.Over(board.pos) && |nodes| + |moves| <= maxNodes
      modifies this, board
      ensures Valid()
      ensures var kids := PlanKids(g, old(board.pos), levels, 0);
        && Length(kids) == |moves|
        && (ok <==> old(|nodes|) + |moves| + BelowAll(kids) <= maxNodes)
        && (ok ==> Expanded(View(old(nodes)), Snapshots(old(spots)), View(nodes), Snapshots(spots),
                            index, Inner(kids)))
      ensures ok ==> spots == old(spots) + SpotsFrom(g, old(board.pos), levels, ply, 0)
      ensures ok ==> board.pos == old(board.pos) && board.made == old(board.made)
      decreases levels, 1
    {
      ghost var p := board.pos;
      ghost var done, added := Nil, [];
      SpotsFromCount(g, p, levels, ply, 0);
      var first := |nodes|;
      nodes := nodes[index := EMPTY.(firstChild := first, childCount := |moves|)] + seq(|moves|, _ => EMPTY);
      NoMoveAdded(g, p, levels, ply, nodes, spots, old(nodes), index);
      for i := 0 to |moves|
        invariant Valid() && board.pos == p && board.made == old(board.made)
        invariant |nodes| <= maxNodes
        invariant Halfway(g, p, levels, ply, i, nodes, spots, old(nodes), old(spots), index, done, added)
      {
        ghost var nodes0, spots0 := nodes, spots;
        NextSlot(g, p, levels, ply, i, nodes, spots, old(nodes), old(spots), index, done, added);
        ok := PlayAndBuild(g, first + i, board, moves[i], levels, ply, maxNodes);
        if !ok {
          return;
        }
        MoveAdded(g, p, levels, ply, i, nodes0, spots0, nodes, spots, old(nodes), old(spots), index, done, added);
        done := Snoc(done, Plan(g, g.Child(p, i), levels - 1));
        added := added + Spots(g, g.Child(p, i), levels - 1, ply + 1);
      }
      AllMovesAdded(g, p, levels, ply, nodes, spots, old(nodes), old(spots), index, done, added);
      ok := true;
    }

    method PlayAndBuild(g: Rules, index: nat, board: Board, move: Move, levels: nat, ply: int, maxNodes: nat)
      returns (ok: bool)
      requires Valid() && index < |nodes| && nodes[index] == EMPTY && levels > 0
      modifies this, board
      ensures Valid()
      ensures var plan := Plan(g, g.Play(old(board.pos), move), levels - 1);
        && (ok <==> Below(plan) == 0 || old(|nodes|) + Below(plan) <= maxNodes)
        && (ok ==> Expanded(View(old(nodes)), Snapshots(old(spots)), View(nodes), Snapshots(spots), index, plan))
      ensures ok ==> spots == old(spots) + Spots(g, g.Play(old(board.pos), move), levels - 1, ply + 1)
      ensures ok ==> board.pos == old(board.pos) && board.made == old(board.made)
      decreases levels, 0
    {
      board.MakeMove(g, move);
      ok := Build(g, index, board, levels - 1, ply + 1, maxNodes);
      if ok {
        board.UnmakeMove(move);
      }
    }
  }
}
