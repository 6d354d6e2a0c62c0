/** A legal game tree written into arrays, for a device that cannot generate moves.

    The children of a slot lie together, followed by the blocks below each of them. `Shown`
    says where the parts of a tree lie, and `Decode` reads an array back. */
module FlatTree {
  import opened Chess

  datatype TreeNode = TreeNode(firstChild: int, childCount: nat, leafIndex: int, terminalScore: int)

  datatype LeafBoard = LeafBoard(pieces: Squares, sideToMove: nat)

  const BLANK := TreeNode(-1, 0, -1, 0)

  function Snapshot(squares: Squares, whiteToMove: bool): LeafBoard {
    LeafBoard(squares, if whiteToMove then 0 else 1)
  }

  // ------------------------------------------------------------- what an array denotes

  /** Children are in bounds and come after their parent; leaf boards exist. */
  predicate Linked(nodes: seq<TreeNode>, leaves: seq<LeafBoard>) {
    forall q | 0 <= q < |nodes| :: SlotLinked(nodes, leaves, q)
  }

  predicate SlotLinked(nodes: seq<TreeNode>, leaves: seq<LeafBoard>, q: nat)
    requires q < |nodes|
  {
    && (nodes[q].childCount > 0 ==> q < nodes[q].firstChild <= |nodes| - nodes[q].childCount)
    && nodes[q].leafIndex < |leaves|
  }

  /** The tree stored at slot `q`. */
  function Decode(nodes: seq<TreeNode>, leaves: seq<LeafBoard>, q: nat): Tree
    requires Linked(nodes, leaves) && q < |nodes|
    decreases |nodes| - q, 0
  {
    assert SlotLinked(nodes, leaves, q);
    if nodes[q].childCount > 0 then
      Inner(DecodeKids(nodes, leaves, nodes[q].firstChild, nodes[q].firstChild + nodes[q].childCount))
    else if nodes[q].leafIndex >= 0 then
      var leaf := leaves[nodes[q].leafIndex];
      Horizon(leaf.pieces, leaf.sideToMove == 0)
    else Ended(nodes[q].terminalScore)
  }

  /** The trees stored at slots `from` up to `to`. */
  function DecodeKids(nodes: seq<TreeNode>, leaves: seq<LeafBoard>, from: nat, to: nat): Trees
    requires Linked(nodes, leaves) && from <= to <= |nodes|
    decreases |nodes| - from, 1
  {
    if from == to then Nil
    else Cons(Decode(nodes, leaves, from), DecodeKids(nodes, leaves, from + 1, to))
  }

  // ------------------------------------------------------------------- the layout

  /** Slots below a tree's own slot. */
  function Below(t: Tree): nat {
    if t.Inner? then Length(t.kids) + BelowAll(t.kids) else 0
  }

  function BelowAll(ts: Trees): nat {
    if ts.Nil? then 0 else Below(ts.head) + BelowAll(ts.tail)
  }

  function LeafCount(t: Tree): nat {
    match t
    case Ended(_) => 0
    case Horizon(_, _) => 1
    case Inner(kids) => LeafCountAll(kids)
  }

  function LeafCountAll(ts: Trees): nat {
    if ts.Nil? then 0 else LeafCount(ts.head) + LeafCountAll(ts.tail)
  }

  /** Slot `at` holds `t`: its children lie together from `lo` on, then the children's own
      blocks, one after the other; its leaf boards lie from `leaf` on. */
  predicate Shown(nodes: seq<TreeNode>, leaves: seq<LeafBoard>, at: nat, lo: nat, leaf: nat, t: Tree)
    decreases t, 1
  {
    && at < lo && at < |nodes|
    && lo + Below(t) <= |nodes|
    && leaf + LeafCount(t) <= |leaves|
    && match t
       case Ended(score) => nodes[at] == TreeNode(-1, 0, -1, score)
       case Horizon(squares, white) =>
         nodes[at] == TreeNode(-1, 0, leaf, 0) && leaves[leaf] == Snapshot(squares, white)
       case Inner(kids) =>
         && kids.Cons?
         && nodes[at] == TreeNode(lo, Length(kids), -1, 0)
         && ShownAll(nodes, leaves, lo, lo + Length(kids), leaf, kids)
  }

  predicate ShownAll(nodes: seq<TreeNode>, leaves: seq<LeafBoard>, at: nat, lo: nat, leaf: nat, ts: Trees)
    decreases ts, 0
  {
    ts.Cons? ==>
      && Shown(nodes, leaves, at, lo, leaf, ts.head)
      && ShownAll(nodes, leaves, at + 1, lo + Below(ts.head), leaf + LeafCount(ts.head), ts.tail)
  }

  /** A layout only depends on its own slots. */
  predicate SameBlock(nodes: seq<TreeNode>, nodes': seq<TreeNode>, from: nat, to: nat) {
    to <= |nodes| && to <= |nodes'| && forall q | from <= q < to :: nodes'[q] == nodes[q]
  }

  lemma {:induction false} ShownFrame(nodes: seq<TreeNode>, nodes': seq<TreeNode>,
      leaves: seq<LeafBoard>, leaves': seq<LeafBoard>, at: nat, lo: nat, leaf: nat, t: Tree)
    requires Shown(nodes, leaves, at, lo, leaf, t) && leaves <= leaves'
    requires SameBlock(nodes, nodes', at, at + 1) && SameBlock(nodes, nodes', lo, lo + Below(t))
    ensures Shown(nodes', leaves', at, lo, leaf, t)
    decreases t, 1
  {
    if t.Inner? {
      ShownAllFrame(nodes, nodes', leaves, leaves', lo, lo + Length(t.kids), leaf, t.kids);
    }
  }

  lemma {:induction false} ShownAllFrame(nodes: seq<TreeNode>, nodes': seq<TreeNode>,
      leaves: seq<LeafBoard>, leaves': seq<LeafBoard>, at: nat, lo: nat, leaf: nat, ts: Trees)
    requires ShownAll(nodes, leaves, at, lo, leaf, ts) && leaves <= leaves'
    requires SameBlock(nodes, nodes', at, at + Length(ts)) && SameBlock(nodes, nodes', lo, lo + BelowAll(ts))
    ensures ShownAll(nodes', leaves', at, lo, leaf, ts)
    decreases ts, 0
  {
    if ts.Cons? {
      ShownFrame(nodes, nodes', leaves, leaves', at, lo, leaf, ts.head);
      ShownAllFrame(nodes, nodes', leaves, leaves', at + 1, lo + Below(ts.head), leaf + LeafCount(ts.head), ts.tail);
    }
  }

  // ------------------------------------------------------------------- building it

  function Snoc(ts: Trees, t: Tree): Trees {
    if ts.Nil? then Cons(t, Nil) else Cons(ts.head, Snoc(ts.tail, t))
  }

  function Append(ts: Trees, us: Trees): Trees {
    if ts.Nil? then us else Cons(ts.head, Append(ts.tail, us))
  }

  lemma {:induction false} SnocAppend(ts: Trees, us: Trees)
    requires us.Cons?
    ensures Append(Snoc(ts, us.head), us.tail) == Append(ts, us)
  {
    if ts.Cons? {
      SnocAppend(ts.tail, us);
    }
  }

  lemma {:induction false} AppendNil(ts: Trees)
    ensures Append(ts, Nil) == ts
  {
    if ts.Cons? {
      AppendNil(ts.tail);
    }
  }

  lemma {:induction false} AppendSizes(ts: Trees, us: Trees)
    ensures Length(Append(ts, us)) == Length(ts) + Length(us)
    ensures BelowAll(Append(ts, us)) == BelowAll(ts) + BelowAll(us)
  {
    if ts.Cons? {
      AppendSizes(ts.tail, us);
    }
  }

  lemma {:induction false} SnocShown(nodes: seq<TreeNode>, leaves: seq<LeafBoard>, at: nat, lo: nat, leaf: nat,
                                     ts: Trees, t: Tree)
    requires ShownAll(nodes, leaves, at, lo, leaf, ts)
    requires Shown(nodes, leaves, at + Length(ts), lo + BelowAll(ts), leaf + LeafCountAll(ts), t)
    ensures ShownAll(nodes, leaves, at, lo, leaf, Snoc(ts, t))
    ensures Length(Snoc(ts, t)) == Length(ts) + 1
    ensures BelowAll(Snoc(ts, t)) == BelowAll(ts) + Below(t)
    ensures LeafCountAll(Snoc(ts, t)) == LeafCountAll(ts) + LeafCount(t)
    decreases ts
  {
    if ts.Cons? {
      SnocShown(nodes, leaves, at + 1, lo + Below(ts.head), leaf + LeafCount(ts.head), ts.tail, t);
    }
  }

  /** The nodes array while the children of slot `index` are being expanded: those in
      `done` are complete, the others still blank. `before` is the array at the start. */
  predicate Partway(nodes: seq<TreeNode>, leaves: seq<LeafBoard>, before: seq<TreeNode>, base: nat,
                    index: nat, width: nat, done: Trees)
  {
    var first := |before|;
    && index < first && Length(done) <= width
    && |nodes| == first + width + BelowAll(done)
    && |leaves| == base + LeafCountAll(done)
    && nodes[index] == TreeNode(first, width, -1, 0)
    && (forall q | 0 <= q < first && q != index :: nodes[q] == before[q])
    && (forall q | first + Length(done) <= q < first + width :: nodes[q] == BLANK)
    && ShownAll(nodes, leaves, first, first + width, base, done)
  }

  /** What expanding slot `index` for the tree `t` does to the arrays. */
  predicate Expanded(nodes: seq<TreeNode>, leaves: seq<LeafBoard>, nodes': seq<TreeNode>, leaves': seq<LeafBoard>,
                     index: nat, t: Tree)
  {
    && |nodes'| == |nodes| + Below(t)
    && |leaves'| == |leaves| + LeafCount(t)
    && leaves <= leaves'
    && (forall q | 0 <= q < |nodes| && q != index :: nodes'[q] == nodes[q])
    && Shown(nodes', leaves', index, |nodes|, |leaves|, t)
  }

  /** Expanding the next child leaves the finished ones as they are. */
  lemma DoneStays(nodes: seq<TreeNode>, leaves: seq<LeafBoard>, nodes': seq<TreeNode>, leaves': seq<LeafBoard>,
                  before: seq<TreeNode>, base: nat, index: nat, width: nat, done: Trees, t: Tree)
    requires Partway(nodes, leaves, before, base, index, width, done) && Length(done) < width
    requires Expanded(nodes, leaves, nodes', leaves', |before| + Length(done), t)
    ensures ShownAll(nodes', leaves', |before|, |before| + width, base, done)
  {
    ShownAllFrame(nodes, nodes', leaves, leaves', |before|, |before| + width, base, done);
  }

  lemma ChildExpanded(nodes: seq<TreeNode>, leaves: seq<LeafBoard>, nodes': seq<TreeNode>, leaves': seq<LeafBoard>,
                      before: seq<TreeNode>, base: nat, index: nat, width: nat, done: Trees, t: Tree)
    requires Partway(nodes, leaves, before, base, index, width, done) && Length(done) < width
    requires Expanded(nodes, leaves, nodes', leaves', |before| + Length(done), t)
    ensures Partway(nodes', leaves', before, base, index, width, Snoc(done, t))
    ensures Length(Snoc(done, t)) == Length(done) + 1
  {
    DoneStays(nodes, leaves, nodes', leaves', before, base, index, width, done, t);
    SnocShown(nodes', leaves', |before|, |before| + width, base, done, t);
  }

  class FlatTree {
    var nodes: seq<TreeNode>
    var leaves: seq<LeafBoard>

    constructor (roots: nat)
      ensures nodes == seq(roots, _ => BLANK) && leaves == []
    {
      nodes, leaves := seq(roots, _ => BLANK), [];
    }

    /** Expands the position on the board into slot `index`. Fails, like the program's
        exception, when the array would have to grow beyond `maxNodes`. */
    method BuildNode(g: Rules, index: nat, board: Board, depth: nat, ply: int, maxNodes: nat) returns (ok: bool)
      requires index < |nodes| && nodes[index] == BLANK
      modifies this, board
      ensures |nodes| <= Max(maxNodes, old(|nodes|))
      ensures var t := GameTree(g, old(board.pos), depth, ply);
        && (ok <==> Below(t) == 0 || old(|nodes|) + Below(t) <= maxNodes)
        && (ok ==> Expanded(old(nodes), old(leaves), nodes, leaves, index, t))
      ensures ok ==> board.pos == old(board.pos) && board.made == old(board.made)
      decreases depth, 2
    {
      var moves := g.Moves(board.pos);
      if |moves| == 0 {
        nodes := nodes[index := BLANK.(terminalScore := if g.InCheck(board.pos) then -MATE + ply else 0)];
        return true;
      }
      if g.Drawn(board.pos) {
        return true;
      }
      if depth == 0 {
        nodes := nodes[index := BLANK.(leafIndex := |leaves|)];
        leaves := leaves + [Snapshot(board.pos.squares, board.pos.whiteToMove)];
        return true;
      }
      KidsLength(g, board.pos, depth, ply, 0);
      if |nodes| + |moves| > maxNodes {
        return false;
      }
      ok := BuildChildren(g, index, board, moves, depth, ply, maxNodes);
    }

    /** The part of `BuildNode` after the size check: room for all children, then each child. */
    method BuildChildren(g: Rules, index: nat, board: Board, moves: seq<Move>, depth: nat, ply: int, maxNodes: nat)
      returns (ok: bool)
      requires index < |nodes| && nodes[index] == BLANK
      requires depth > 0 && moves == g.Moves(board.pos) && moves != [] && |nodes| + |moves| <= maxNodes
      modifies this, board
      ensures |nodes| <= maxNodes
      ensures var kids := Kids(g, old(board.pos), depth, ply, 0);
        && Length(kids) == |moves|
        && (ok <==> old(|nodes|) + |moves| + BelowAll(kids) <= maxNodes)
        && (ok ==> Expanded(old(nodes), old(leaves), nodes, leaves, index, Inner(kids)))
      ensures ok ==> board.pos == old(board.pos) && board.made == old(board.made)
      decreases depth, 1
    {
      ghost var p := board.pos;
      ghost var kids := Kids(g, p, depth, ply, 0);
      ghost var todo, done := kids, Nil;
      KidsLength(g, p, depth, ply, 0);
      var first := |nodes|;
      nodes := nodes[index := BLANK.(firstChild := first, childCount := |moves|)] + seq(|moves|, _ => BLANK);
      for i := 0 to |moves|
        invariant board.pos == p && board.made == old(board.made)
        invariant todo == Kids(g, p, depth, ply, i) && Append(done, todo) == kids && Length(done) == i
        invariant |nodes| <= maxNodes && old(leaves) <= leaves
        invariant Partway(nodes, leaves, old(nodes), |old(leaves)|, index, |moves|, done)
      {
        ghost var nodes0, leaves0 := nodes, leaves;
        AppendSizes(done, todo);
        ok := PlayAndBuild(g, first + i, board, moves[i], depth, ply, maxNodes);
        if !ok {
          return;
        }
        ChildExpanded(nodes0, leaves0, nodes, leaves, old(nodes), |old(leaves)|, index, |moves|, done, todo.head);
        SnocAppend(done, todo);
        done, todo := Snoc(done, todo.head), todo.tail;
      }
      AppendNil(done);
      ok := true;
    }

    method PlayAndBuild(g: Rules, index: nat, board: Board, move: Move, depth: nat, ply: int, maxNodes: nat)
      returns (ok: bool)
      requires index < |nodes| && nodes[index] == BLANK && depth > 0
      modifies this, board
      ensures |nodes| <= Max(maxNodes, old(|nodes|))
      ensures var t := GameTree(g, g.Play(old(board.pos), move), depth - 1, ply + 1);
        && (ok <==> Below(t) == 0 || old(|nodes|) + Below(t) <= maxNodes)
        && (ok ==> Expanded(old(nodes), old(leaves), nodes, leaves, index, t))
      ensures ok ==> board.pos == old(board.pos) && board.made == old(board.made)
      decreases depth, 0
    {
      board.MakeMove(g, move);
      ok := BuildNode(g, index, board, depth - 1, ply + 1, maxNodes);
      if ok {
        board.UnmakeMove(move);
      }
    }
  }

  // ------------------------------------------------------------- what was built

  predicate Owns(nodes: seq<TreeNode>, q: int, x: int) {
    0 <= q < |nodes| && nodes[q].firstChild <= x < nodes[q].firstChild + nodes[q].childCount
  }

  ghost predicate HasOneParent(nodes: seq<TreeNode>, x: int) {
    exists q :: Owns(nodes, q, x) && q < x && forall q' | Owns(nodes, q', x) :: q' == q
  }

  predicate InBlock(q: int, at: nat, lo: nat, t: Tree) {
    q == at || lo <= q < lo + Below(t)
  }

  predicate InBlocks(q: int, at: nat, lo: nat, ts: Trees) {
    at <= q < at + Length(ts) || lo <= q < lo + BelowAll(ts)
  }

  lemma {:induction false} BlockIsLinked(nodes: seq<TreeNode>, leaves: seq<LeafBoard>,
                                         at: nat, lo: nat, leaf: nat, t: Tree, q: nat)
    requires Shown(nodes, leaves, at, lo, leaf, t) && InBlock(q, at, lo, t)
    ensures q < |nodes| && SlotLinked(nodes, leaves, q)
    decreases t, 1
  {
    if t.Inner? && q != at {
      BlocksAreLinked(nodes, leaves, lo, lo + Length(t.kids), leaf, t.kids, q);
    }
  }

  lemma {:induction false} BlocksAreLinked(nodes: seq<TreeNode>, leaves: seq<LeafBoard>,
                                           at: nat, lo: nat, leaf: nat, ts: Trees, q: nat)
    requires ShownAll(nodes, leaves, at, lo, leaf, ts) && InBlocks(q, at, lo, ts)
    ensures q < |nodes| && SlotLinked(nodes, leaves, q)
    decreases ts, 0
  {
    if ts.Cons? {
      if InBlock(q, at, lo, ts.head) {
        BlockIsLinked(nodes, leaves, at, lo, leaf, ts.head, q);
      } else {
        BlocksAreLinked(nodes, leaves, at + 1, lo + Below(ts.head), leaf + LeafCount(ts.head), ts.tail, q);
      }
    }
  }

  lemma {:induction false} ShownDecodes(nodes: seq<TreeNode>, leaves: seq<LeafBoard>,
                                        at: nat, lo: nat, leaf: nat, t: Tree)
    requires Shown(nodes, leaves, at, lo, leaf, t) && Linked(nodes, leaves)
    ensures Decode(nodes, leaves, at) == t
    decreases t, 1
  {
    if t.Inner? {
      ShownAllDecodes(nodes, leaves, lo, lo + Length(t.kids), leaf, t.kids);
    }
  }

  lemma {:induction false} ShownAllDecodes(nodes: seq<TreeNode>, leaves: seq<LeafBoard>,
                                           at: nat, lo: nat, leaf: nat, ts: Trees)
    requires ShownAll(nodes, leaves, at, lo, leaf, ts) && Linked(nodes, leaves) && at + Length(ts) <= |nodes|
    ensures DecodeKids(nodes, leaves, at, at + Length(ts)) == ts
    decreases ts, 0
  {
    if ts.Cons? {
      ShownDecodes(nodes, leaves, at, lo, leaf, ts.head);
      ShownAllDecodes(nodes, leaves, at + 1, lo + Below(ts.head), leaf + LeafCount(ts.head), ts.tail);
    }
  }

  lemma {:induction false} OwnsInside(nodes: seq<TreeNode>, leaves: seq<LeafBoard>,
                                      at: nat, lo: nat, leaf: nat, t: Tree, q: int, x: int)
    requires Shown(nodes, leaves, at, lo, leaf, t) && InBlock(q, at, lo, t) && Owns(nodes, q, x)
    ensures lo <= x < lo + Below(t)
    decreases t, 1
  {
    if t.Inner? && q != at {
      AllOwnInside(nodes, leaves, lo, lo + Length(t.kids), leaf, t.kids, q, x);
    }
  }

  lemma {:induction false} AllOwnInside(nodes: seq<TreeNode>, leaves: seq<LeafBoard>,
                                        at: nat, lo: nat, leaf: nat, ts: Trees, q: int, x: int)
    requires ShownAll(nodes, leaves, at, lo, leaf, ts) && InBlocks(q, at, lo, ts) && Owns(nodes, q, x)
    ensures lo <= x < lo + BelowAll(ts)
    decreases ts, 0
  {
    if ts.Cons? {
      if InBlock(q, at, lo, ts.head) {
        OwnsInside(nodes, leaves, at, lo, leaf, ts.head, q, x);
      } else {
        AllOwnInside(nodes, leaves, at + 1, lo + Below(ts.head), leaf + LeafCount(ts.head), ts.tail, q, x);
      }
    }
  }

  /** The one parent of a slot below `at`. */
  lemma {:induction false} ParentOf(nodes: seq<TreeNode>, leaves: seq<LeafBoard>,
                                    at: nat, lo: nat, leaf: nat, t: Tree, x: nat) returns (q: nat)
    requires Shown(nodes, leaves, at, lo, leaf, t) && lo <= x < lo + Below(t)
    ensures InBlock(q, at, lo, t) && Owns(nodes, q, x)
    ensures forall q' | InBlock(q', at, lo, t) && Owns(nodes, q', x) :: q' == q
    decreases t, 1
  {
    var kidsLo := lo + Length(t.kids);
    forall q' | InBlocks(q', lo, kidsLo, t.kids) && Owns(nodes, q', x)
      ensures kidsLo <= x
    {
      AllOwnInside(nodes, leaves, lo, kidsLo, leaf, t.kids, q', x);
    }
    if x < kidsLo {
      q := at;
    } else {
      q := ParentOfAll(nodes, leaves, lo, kidsLo, leaf, t.kids, x);
    }
  }

  lemma {:induction false} ParentOfAll(nodes: seq<TreeNode>, leaves: seq<LeafBoard>,
                                       at: nat, lo: nat, leaf: nat, ts: Trees, x: nat) returns (q: nat)
    requires ShownAll(nodes, leaves, at, lo, leaf, ts) && lo <= x < lo + BelowAll(ts)
    ensures InBlocks(q, at, lo, ts) && Owns(nodes, q, x)
    ensures forall q' | InBlocks(q', at, lo, ts) && Owns(nodes, q', x) :: q' == q
    decreases ts, 0
  {
    var lo', leaf' := lo + Below(ts.head), leaf + LeafCount(ts.head);
    if x < lo' {
      q := ParentOf(nodes, leaves, at, lo, leaf, ts.head, x);
    } else {
      q := ParentOfAll(nodes, leaves, at + 1, lo', leaf', ts.tail, x);
    }
    forall q' | InBlocks(q', at, lo, ts) && Owns(nodes, q', x)
      ensures q' == q
    {
      if InBlock(q', at, lo, ts.head) {
        OwnsInside(nodes, leaves, at, lo, leaf, ts.head, q', x);
      } else {
        AllOwnInside(nodes, leaves, at + 1, lo', leaf', ts.tail, q', x);
      }
    }
  }

  predicate HasLeaf(nodes: seq<TreeNode>, q: int, x: int) {
    0 <= q < |nodes| && nodes[q].leafIndex == x
  }

  ghost predicate HasOneSlot(nodes: seq<TreeNode>, x: int) {
    exists q :: HasLeaf(nodes, q, x) && forall q' | HasLeaf(nodes, q', x) :: q' == q
  }

  lemma {:induction false} LeafInside(nodes: seq<TreeNode>, leaves: seq<LeafBoard>,
                                      at: nat, lo: nat, leaf: nat, t: Tree, q: int, x: nat)
    requires Shown(nodes, leaves, at, lo, leaf, t) && InBlock(q, at, lo, t) && HasLeaf(nodes, q, x)
    ensures leaf <= x < leaf + LeafCount(t)
    decreases t, 1
  {
    if t.Inner? && q != at {
      AllLeavesInside(nodes, leaves, lo, lo + Length(t.kids), leaf, t.kids, q, x);
    }
  }

  lemma {:induction false} AllLeavesInside(nodes: seq<TreeNode>, leaves: seq<LeafBoard>,
                                           at: nat, lo: nat, leaf: nat, ts: Trees, q: int, x: nat)
    requires ShownAll(nodes, leaves, at, lo, leaf, ts) && InBlocks(q, at, lo, ts) && HasLeaf(nodes, q, x)
    ensures leaf <= x < leaf + LeafCountAll(ts)
    decreases ts, 0
  {
    if ts.Cons? {
      if InBlock(q, at, lo, ts.head) {
        LeafInside(nodes, leaves, at, lo, leaf, ts.head, q, x);
      } else {
        AllLeavesInside(nodes, leaves, at + 1, lo + Below(ts.head), leaf + LeafCount(ts.head), ts.tail, q, x);
      }
    }
  }

  /** The one slot of a leaf board. */
  lemma {:induction false} SlotOf(nodes: seq<TreeNode>, leaves: seq<LeafBoard>,
                                  at: nat, lo: nat, leaf: nat, t: Tree, x: nat) returns (q: nat)
    requires Shown(nodes, leaves, at, lo, leaf, t) && leaf <= x < leaf + LeafCount(t)
    ensures InBlock(q, at, lo, t) && HasLeaf(nodes, q, x)
    ensures forall q' | InBlock(q', at, lo, t) && HasLeaf(nodes, q', x) :: q' == q
    decreases t, 1
  {
    if t.Inner? {
      q := SlotOfAll(nodes, leaves, lo, lo + Length(t.kids), leaf, t.kids, x);
    } else {
      q := at;
    }
  }

  lemma {:induction false} SlotOfAll(nodes: seq<TreeNode>, leaves: seq<LeafBoard>,
                                     at: nat, lo: nat, leaf: nat, ts: Trees, x: nat) returns (q: nat)
    requires ShownAll(nodes, leaves, at, lo, leaf, ts) && leaf <= x < leaf + LeafCountAll(ts)
    ensures InBlocks(q, at, lo, ts) && HasLeaf(nodes, q, x)
    ensures forall q' | InBlocks(q', at, lo, ts) && HasLeaf(nodes, q', x) :: q' == q
    decreases ts, 0
  {
    var lo', leaf' := lo + Below(ts.head), leaf + LeafCount(ts.head);
    if x < leaf' {
      q := SlotOf(nodes, leaves, at, lo, leaf, ts.head, x);
    } else {
      q := SlotOfAll(nodes, leaves, at + 1, lo', leaf', ts.tail, x);
    }
    forall q' | InBlocks(q', at, lo, ts) && HasLeaf(nodes, q', x)
      ensures q' == q
    {
      if InBlock(q', at, lo, ts.head) {
        LeafInside(nodes, leaves, at, lo, leaf, ts.head, q', x);
      } else {
        AllLeavesInside(nodes, leaves, at + 1, lo', leaf', ts.tail, q', x);
      }
    }
  }

  lemma LeafHasOneSlot(nodes: seq<TreeNode>, leaves: seq<LeafBoard>, ts: Trees, x: nat)
    requires ShownAll(nodes, leaves, 0, Length(ts), 0, ts) && |nodes| == Length(ts) + BelowAll(ts)
    requires x < LeafCountAll(ts)
    ensures HasOneSlot(nodes, x)
  {
    var q := SlotOfAll(nodes, leaves, 0, Length(ts), 0, ts, x);
    forall q' | HasLeaf(nodes, q', x) ensures q' == q {
      assert InBlocks(q', 0, Length(ts), ts);
    }
  }

  lemma SlotHasLeaf(nodes: seq<TreeNode>, leaves: seq<LeafBoard>, ts: Trees, q: int, x: nat)
    requires ShownAll(nodes, leaves, 0, Length(ts), 0, ts) && |nodes| == Length(ts) + BelowAll(ts)
    requires HasLeaf(nodes, q, x)
    ensures x < LeafCountAll(ts)
  {
    AllLeavesInside(nodes, leaves, 0, Length(ts), 0, ts, q, x);
  }

  /** Leaf boards and the slots with a leaf index are in one-to-one correspondence. */
  lemma LeavesAreSlots(nodes: seq<TreeNode>, leaves: seq<LeafBoard>, ts: Trees)
    requires ShownAll(nodes, leaves, 0, Length(ts), 0, ts)
    requires |nodes| == Length(ts) + BelowAll(ts) && |leaves| == LeafCountAll(ts)
    ensures forall x | 0 <= x < |leaves| :: HasOneSlot(nodes, x)
    ensures forall q, x: nat | HasLeaf(nodes, q, x) :: x < |leaves|
  {
    forall x | 0 <= x < |leaves| ensures HasOneSlot(nodes, x) {
      LeafHasOneSlot(nodes, leaves, ts, x);
    }
    forall q, x: nat | HasLeaf(nodes, q, x) ensures x < |leaves| {
      SlotHasLeaf(nodes, leaves, ts, q, x);
    }
  }

  lemma SingleRoot(nodes: seq<TreeNode>, leaves: seq<LeafBoard>, t: Tree)
    requires Shown(nodes, leaves, 0, 1, 0, t)
    ensures var ts := Cons(t, Nil);
      && Length(ts) == 1 && BelowAll(ts) == Below(t) && LeafCountAll(ts) == LeafCount(t)
      && ShownAll(nodes, leaves, 0, 1, 0, ts)
  {
  }

  /** An array filled from `Length(ts)` roots is a forest: links go forward and stay in
      bounds, every slot that is not a root has exactly one parent, roots have none, and
      reading the array back gives the trees it was built for. */
  lemma BuiltForest(nodes: seq<TreeNode>, leaves: seq<LeafBoard>, ts: Trees)
    requires ShownAll(nodes, leaves, 0, Length(ts), 0, ts) && |nodes| == Length(ts) + BelowAll(ts)
    ensures Linked(nodes, leaves)
    ensures DecodeKids(nodes, leaves, 0, Length(ts)) == ts
    ensures forall x | Length(ts) <= x < |nodes| :: HasOneParent(nodes, x)
    ensures forall q, x | Owns(nodes, q, x) :: Length(ts) <= x < |nodes|
  {
    var n := Length(ts);
    forall q | 0 <= q < |nodes|
      ensures SlotLinked(nodes, leaves, q)
    {
      BlocksAreLinked(nodes, leaves, 0, n, 0, ts, q);
    }
    ShownAllDecodes(nodes, leaves, 0, n, 0, ts);
    forall q, x | Owns(nodes, q, x)
      ensures n <= x < |nodes|
    {
      AllOwnInside(nodes, leaves, 0, n, 0, ts, q, x);
    }
    forall x | n <= x < |nodes|
      ensures HasOneParent(nodes, x)
    {
      var q := ParentOfAll(nodes, leaves, 0, n, 0, ts, x);
      assert SlotLinked(nodes, leaves, q);
      assert Owns(nodes, q, x) && q < x;
    }
  }
}
