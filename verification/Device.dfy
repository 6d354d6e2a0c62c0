/** The traversal that runs on the device: alpha-beta over a flat tree with an explicit stack. */
module Device {
  import opened Chess
  import opened AlphaBeta
  import opened FlatTree
  import opened Counting

  datatype Frame = Frame(index: nat, next: nat, best: int, alpha: int, beta: int)

  /** The arrays the device reads; they do not change during a search. */
  datatype Store = Store(nodes: seq<TreeNode>, leaves: seq<LeafBoard>) {
    ghost predicate Valid() {
      Linked(nodes, leaves)
    }

    predicate Holds(f: Frame) {
      f.index < |nodes| && f.next <= nodes[f.index].childCount
    }
  }

  // ---------------------------------------------------------------- meaning of a stack

  /** The frame pushed for the next child. */
  function Fresh(m: Store, f: Frame): (child: Frame)
    requires m.Valid() && m.Holds(f) && f.next < m.nodes[f.index].childCount
    ensures m.Holds(child)
  {
    assert SlotLinked(m.nodes, m.leaves, f.index);
    Frame(m.nodes[f.index].firstChild + f.next, 0, -INF, -f.beta, -f.alpha)
  }

  function Advanced(f: Frame): Frame {
    f.(next := f.next + 1)
  }

  /** The children a frame has not visited. */
  ghost function Unvisited(m: Store, f: Frame): Trees
    requires m.Valid() && m.Holds(f)
  {
    var node := m.nodes[f.index];
    assert SlotLinked(m.nodes, m.leaves, f.index);
    if node.childCount == 0 then Nil
    else DecodeKids(m.nodes, m.leaves, node.firstChild + f.next, node.firstChild + node.childCount)
  }

  ghost function TreeAt(m: Store, f: Frame): Tree
    requires m.Valid() && m.Holds(f)
  {
    Decode(m.nodes, m.leaves, f.index)
  }

  /** The score the recursion would return from this frame on. */
  ghost function Outcome(m: Store, f: Frame): int
    requires m.Valid() && m.Holds(f)
  {
    if m.nodes[f.index].childCount == 0 then LeafScore(TreeAt(m, f))
    else if f.alpha >= f.beta then f.best
    else ScoreRest(Unvisited(m, f), f.best, f.alpha, f.beta)
  }

  /** What it would still count; the visit of the frame's own node is counted already. */
  ghost function Ahead(c: Counter, m: Store, f: Frame): nat
    requires m.Valid() && m.Holds(f)
  {
    if m.nodes[f.index].childCount == 0 then PerLeaf(c) - PerNode(c)
    else if f.alpha >= f.beta then 0
    else CountRest(c, Unvisited(m, f), f.alpha, f.beta)
  }

  /** A parent frame after its child returned `value`. */
  function Absorb(f: Frame, value: int): Frame {
    f.(best := Max(f.best, -value), alpha := Max(f.alpha, -value))
  }

  ghost function CutoffAt(c: Counter, m: Store, f: Frame): nat
    requires m.Holds(f)
  {
    if f.alpha >= f.beta then PerCutoff(c, f.next == m.nodes[f.index].childCount) else 0
  }

  /** The frames in use, the top one first. */
  datatype Stack = Empty | On(top: Frame, below: Stack)

  function Contents(frames: seq<Frame>, n: nat): Stack
    requires n <= |frames|
  {
    if n == 0 then Empty else On(frames[n - 1], Contents(frames, n - 1))
  }

  function Depth(stack: Stack): nat {
    if stack.Empty? then 0 else 1 + Depth(stack.below)
  }

  /** Frames that wait for a child: frame k is at depth k, and its window is still open. */
  ghost predicate Waiting(m: Store, stack: Stack, height: nat)
    requires m.Valid()
  {
    stack.On? ==>
      && m.Holds(stack.top)
      && stack.top.alpha < stack.top.beta
      && Height(TreeAt(m, stack.top)) + Depth(stack.below) <= height
      && Waiting(m, stack.below, height)
  }

  /** The final score when the waiting frames return to one another, starting with `value`. */
  ghost function Unwind(m: Store, waiting: Stack, value: int, height: nat): int
    requires m.Valid() && Waiting(m, waiting, height)
  {
    if waiting.Empty? then value
    else Unwind(m, waiting.below, Outcome(m, Absorb(waiting.top, value)), height)
  }

  ghost function UnwindCount(c: Counter, m: Store, waiting: Stack, value: int, height: nat): nat
    requires m.Valid() && Waiting(m, waiting, height)
  {
    if waiting.Empty? then 0
    else
      var f := Absorb(waiting.top, value);
      CutoffAt(c, m, f) + Ahead(c, m, f) + UnwindCount(c, m, waiting.below, Outcome(m, f), height)
  }

  // ------------------------------------------------------------------ one step of each kind

  /** A fresh frame for a child returns what the recursive search of the child returns. */
  lemma FreshFrame(c: Counter, m: Store, f: Frame)
    requires m.Valid() && m.Holds(f) && f.next == 0 && f.best == -INF && f.alpha < f.beta
    ensures Outcome(m, f) == Score(TreeAt(m, f), f.alpha, f.beta)
    ensures Ahead(c, m, f) + PerNode(c) == Count(c, TreeAt(m, f), f.alpha, f.beta)
  {
  }

  /** Visiting the next child and absorbing its score is one turn of the recursive loop. */
  lemma TurnOfLoop(c: Counter, m: Store, f: Frame)
    requires m.Valid() && m.Holds(f) && f.next < m.nodes[f.index].childCount && f.alpha < f.beta
    ensures var child := Fresh(m, f);
      var after := Absorb(Advanced(f), Outcome(m, child));
      && m.Holds(after)
      && Outcome(m, f) == Outcome(m, after)
      && Ahead(c, m, f) == PerNode(c) + Ahead(c, m, child) + CutoffAt(c, m, after) + Ahead(c, m, after)
  {
    var child := Fresh(m, f);
    FreshFrame(c, m, child);
    var after := Absorb(Advanced(f), Outcome(m, child));
    assert Unvisited(m, f) == Cons(TreeAt(m, child), Unvisited(m, after));
  }

  /** What holds whenever the machine looks at its stack: what it has counted and what the
      frames still owe make up the recursive search of the tree. */
  ghost predicate Running(m: Store, t: Tree, f: Frame, waiting: Stack, visited: nat, leafVisits: nat, cutoffs: nat)
    requires m.Valid()
  {
    && m.Holds(f)
    && Height(TreeAt(m, f)) + Depth(waiting) <= Height(t)
    && Waiting(m, waiting, Height(t))
    && Unwind(m, waiting, Outcome(m, f), Height(t)) == Score(t, -INF, INF)
    && visited + Owed(Nodes, m, f, waiting, Height(t)) == FullCount(Nodes, t)
    && leafVisits + Owed(Leaves, m, f, waiting, Height(t)) == FullCount(Leaves, t)
    && cutoffs + Owed(Early, m, f, waiting, Height(t)) == FullCount(Early, t)
  }

  ghost function Owed(c: Counter, m: Store, f: Frame, waiting: Stack, height: nat): nat
    requires m.Valid() && m.Holds(f) && Waiting(m, waiting, height)
  {
    Ahead(c, m, f) + UnwindCount(c, m, waiting, Outcome(m, f), height)
  }

  ghost predicate Settled(m: Store, f: Frame)
    requires m.Holds(f)
  {
    f.next == m.nodes[f.index].childCount || f.alpha >= f.beta
  }

  lemma Pushed(m: Store, t: Tree, f: Frame, waiting: Stack, visited: nat, leafVisits: nat, cutoffs: nat)
    requires m.Valid() && Running(m, t, f, waiting, visited, leafVisits, cutoffs) && !Settled(m, f)
    ensures Running(m, t, Fresh(m, f), On(Advanced(f), waiting), visited + 1, leafVisits, cutoffs)
    ensures Owed(Nodes, m, Fresh(m, f), On(Advanced(f), waiting), Height(t))
          < Owed(Nodes, m, f, waiting, Height(t))
  {
    TurnOfLoop(Nodes, m, f);
    TurnOfLoop(Leaves, m, f);
    TurnOfLoop(Early, m, f);
    ChildIsLower(m, f);
    assert TreeAt(m, Advanced(f)) == TreeAt(m, f);
  }

  lemma Popped(m: Store, t: Tree, f: Frame, waiting: Stack, visited: nat, leafVisits: nat, cutoffs: nat)
    requires m.Valid() && Running(m, t, f, waiting, visited, leafVisits, cutoffs) && Settled(m, f)
    ensures waiting.Empty? ==>
      && Outcome(m, f) == Score(t, -INF, INF)
      && visited == FullCount(Nodes, t)
      && leafVisits + LeafVisit(m, f) == FullCount(Leaves, t)
      && cutoffs == FullCount(Early, t)
    ensures waiting.On? ==>
      var f' := Absorb(waiting.top, Outcome(m, f));
      && m.Holds(waiting.top) && m.Holds(f')
      && Running(m, t, f', waiting.below, visited, leafVisits + LeafVisit(m, f), cutoffs + CutoffAt(Early, m, f'))
      && Owed(Nodes, m, f', waiting.below, Height(t)) == Owed(Nodes, m, f, waiting, Height(t))
  {
  }

  function LeafVisit(m: Store, f: Frame): nat
    requires m.Holds(f)
  {
    if m.nodes[f.index].childCount == 0 then 1 else 0
  }

  lemma ChildIsLower(m: Store, f: Frame)
    requires m.Valid() && m.Holds(f) && f.next < m.nodes[f.index].childCount
    ensures Height(TreeAt(m, Fresh(m, f))) < Height(TreeAt(m, f))
  {
    var node := m.nodes[f.index];
    assert SlotLinked(m.nodes, m.leaves, f.index);
    KidIsLower(m, node.firstChild, node.firstChild + node.childCount, node.firstChild + f.next);
  }

  lemma {:induction false} KidIsLower(m: Store, from: nat, to: nat, k: nat)
    requires m.Valid() && from <= k < to <= |m.nodes|
    ensures Height(Decode(m.nodes, m.leaves, k)) <= HeightRest(DecodeKids(m.nodes, m.leaves, from, to))
    decreases k - from
  {
    if from < k {
      KidIsLower(m, from + 1, to, k);
    }
  }

  // -------------------------------------------------------------------- the machine

  function DevicePieceValue(kind: int): int {
    match kind
    case 0 => 100
    case 1 => 320
    case 2 => 330
    case 3 => 500
    case 4 => 900
    case _ => 0
  }

  method DeviceEvaluate(board: LeafBoard) returns (score: int)
    ensures score == Static(board.pieces, board.sideToMove == 0)
  {
    var white := 0;
    for sq := 0 to 64
      invariant white == Material(board.pieces[..sq])
    {
      var code := board.pieces[sq];
      if code < 12 {
        white := white + if code < 6 then DevicePieceValue(code) else -DevicePieceValue(code - 6);
      }
      assert board.pieces[..sq + 1][..sq] == board.pieces[..sq];
    }
    assert board.pieces[..64] == board.pieces;
    score := if board.sideToMove == 0 then white else -white;
  }

  /** The value of a frame with nothing left to visit. */
  method Settle(m: Store, done: Frame) returns (value: int, leafVisits: nat)
    requires m.Valid() && m.Holds(done) && Settled(m, done)
    ensures value == Outcome(m, done) && leafVisits == LeafVisit(m, done)
  {
    var node := m.nodes[done.index];
    assert SlotLinked(m.nodes, m.leaves, done.index);
    value, leafVisits := done.best, 0;
    if node.childCount == 0 {
      leafVisits := 1;
      if node.leafIndex >= 0 {
        value := DeviceEvaluate(m.leaves[node.leafIndex]);
      } else {
        value := node.terminalScore;
      }
    }
  }

  // ------------------------------------------------------------- the stack in its array

  /** The machine with frame `top` on top of its stack. */
  ghost predicate Machine(m: Store, t: Tree, frames: seq<Frame>, top: int,
                          visited: nat, leafVisits: nat, cutoffs: nat)
  {
    && m.Valid() && 0 <= top < |frames|
    && Running(m, t, frames[top], Contents(frames, top), visited, leafVisits, cutoffs)
  }

  /** The steps it still has to make, but for those that only close frames. */
  ghost function Steps(m: Store, t: Tree, frames: seq<Frame>, top: int,
                       visited: nat, leafVisits: nat, cutoffs: nat): nat
    requires Machine(m, t, frames, top, visited, leafVisits, cutoffs)
  {
    Owed(Nodes, m, frames[top], Contents(frames, top), Height(t))
  }

  lemma {:induction false} SameContents(frames: seq<Frame>, frames': seq<Frame>, n: nat)
    requires n <= |frames| && n <= |frames'| && forall k | 0 <= k < n :: frames[k] == frames'[k]
    ensures Contents(frames, n) == Contents(frames', n)
  {
    if n > 0 {
      SameContents(frames, frames', n - 1);
    }
  }

  lemma {:induction false} DepthOfContents(frames: seq<Frame>, n: nat)
    requires n <= |frames|
    ensures Depth(Contents(frames, n)) == n
  {
    if n > 0 {
      DepthOfContents(frames, n - 1);
    }
  }

  /** The turn that opens a child. */
  lemma PushTurn(m: Store, t: Tree, frames: seq<Frame>, top: int, visited: nat, leafVisits: nat, cutoffs: nat)
    requires Machine(m, t, frames, top, visited, leafVisits, cutoffs) && !Settled(m, frames[top])
    requires Height(t) < |frames|
    ensures top + 1 <= Height(t)
    ensures var frames' := frames[top := Advanced(frames[top])][top + 1 := Fresh(m, frames[top])];
      && Machine(m, t, frames', top + 1, visited + 1, leafVisits, cutoffs)
      && Steps(m, t, frames', top + 1, visited + 1, leafVisits, cutoffs)
       < Steps(m, t, frames, top, visited, leafVisits, cutoffs)
  {
    var f, waiting := frames[top], Contents(frames, top);
    Pushed(m, t, f, waiting, visited, leafVisits, cutoffs);
    DepthOfContents(frames, top);
    var frames' := frames[top := Advanced(f)][top + 1 := Fresh(m, f)];
    SameContents(frames, frames', top);
  }

  /** The turn that closes a frame, and with the last one the search. */
  lemma PopTurn(m: Store, t: Tree, frames: seq<Frame>, top: int, visited: nat, leafVisits: nat, cutoffs: nat)
    requires Machine(m, t, frames, top, visited, leafVisits, cutoffs) && Settled(m, frames[top])
    ensures top == 0 ==>
      && Outcome(m, frames[top]) == Score(t, -INF, INF)
      && visited == FullCount(Nodes, t)
      && leafVisits + LeafVisit(m, frames[top]) == FullCount(Leaves, t)
      && cutoffs == FullCount(Early, t)
    ensures top > 0 ==>
      var parent := Absorb(frames[top - 1], Outcome(m, frames[top]));
      var frames' := frames[top - 1 := parent];
      var leafVisits' := leafVisits + LeafVisit(m, frames[top]);
      && m.Holds(parent)
      && Machine(m, t, frames', top - 1, visited, leafVisits', cutoffs + CutoffAt(Early, m, parent))
      && Steps(m, t, frames', top - 1, visited, leafVisits', cutoffs + CutoffAt(Early, m, parent))
      == Steps(m, t, frames, top, visited, leafVisits, cutoffs)
  {
    Popped(m, t, frames[top], Contents(frames, top), visited, leafVisits, cutoffs);
    if top > 0 {
      var frames' := frames[top - 1 := Absorb(frames[top - 1], Outcome(m, frames[top]))];
      SameContents(frames, frames', top - 1);
    }
  }

  /** Returns what the recursive search over the whole range returns, with its visits and
      leaves. Of its cutoffs the machine counts the early ones. The stack never holds more
      frames than the tree is high, so trees up to the device limit fit. */
  method DeviceSearch(m: Store, root: nat)
    returns (value: int, visited: nat, leafVisits: nat, cutoffs: nat, ghost highest: nat)
    requires m.Valid() && root < |m.nodes|
    requires Height(Decode(m.nodes, m.leaves, root)) <= MAX_GPU_DEPTH + 1
    ensures var t := Decode(m.nodes, m.leaves, root);
      && value == Score(t, -INF, INF)
      && visited == FullCount(Nodes, t)
      && leafVisits == FullCount(Leaves, t)
      && cutoffs == FullCount(Early, t)
    ensures var t := Decode(m.nodes, m.leaves, root);
      cutoffs + visited <= Size(Nodes, t) && (cutoffs == 0 <==> visited == Size(Nodes, t))
    ensures highest <= Height(Decode(m.nodes, m.leaves, root))
  {
    ghost var t := Decode(m.nodes, m.leaves, root);
    EarlyCutoffsSkip(t, -INF, INF);
    var stack := new Frame[MAX_GPU_DEPTH + 2];
    var top := 0;
    stack[0] := Frame(root, 0, -INF, -INF, INF);
    visited, leafVisits, cutoffs := 1, 0, 0;
    highest := 0;
    while true
      invariant Machine(m, t, stack[..], top, visited, leafVisits, cutoffs) && highest <= Height(t)
      decreases Steps(m, t, stack[..], top, visited, leafVisits, cutoffs), top
    {
      var current := stack[top];
      var node := m.nodes[current.index];
      if node.childCount == 0 || current.next >= node.childCount || current.alpha >= current.beta {
        value, leafVisits, cutoffs := CloseFrame(m, t, stack, top, visited, leafVisits, cutoffs);
        top := top - 1;
        if top < 0 {
          return;
        }
      } else {
        OpenChild(m, t, stack, top, visited, leafVisits, cutoffs);
        top := top + 1;
        visited := visited + 1;
        highest := if highest < top then top else highest;
      }
    }
  }

  /** Pushes a frame for the next child. */
  method OpenChild(m: Store, ghost t: Tree, stack: array<Frame>, top: nat,
                   ghost visited: nat, ghost leafVisits: nat, ghost cutoffs: nat)
    requires Machine(m, t, stack[..], top, visited, leafVisits, cutoffs) && !Settled(m, stack[top])
    requires Height(t) < stack.Length
    modifies stack
    ensures top + 1 <= Height(t)
    ensures Machine(m, t, stack[..], top + 1, visited + 1, leafVisits, cutoffs)
    ensures Steps(m, t, stack[..], top + 1, visited + 1, leafVisits, cutoffs)
          < old(Steps(m, t, stack[..], top, visited, leafVisits, cutoffs))
  {
    PushTurn(m, t, stack[..], top, visited, leafVisits, cutoffs);
    var child := Fresh(m, stack[top]);
    stack[top] := Advanced(stack[top]);
    stack[top + 1] := child;
    assert stack[..] == old(stack[..][top := Advanced(stack[top])][top + 1 := Fresh(m, stack[top])]);
  }

  /** Pops the top frame and hands its value to the frame below, if any. */
  method CloseFrame(m: Store, ghost t: Tree, stack: array<Frame>, top: nat,
                    ghost visited: nat, leafVisits: nat, cutoffs: nat)
    returns (value: int, leafVisits': nat, cutoffs': nat)
    requires Machine(m, t, stack[..], top, visited, leafVisits, cutoffs) && Settled(m, stack[top])
    modifies stack
    ensures top == 0 ==>
      && value == Score(t, -INF, INF) && visited == FullCount(Nodes, t)
      && leafVisits' == FullCount(Leaves, t) && cutoffs' == FullCount(Early, t)
    ensures top > 0 ==>
      && Machine(m, t, stack[..], top - 1, visited, leafVisits', cutoffs')
      && Steps(m, t, stack[..], top - 1, visited, leafVisits', cutoffs')
      == old(Steps(m, t, stack[..], top, visited, leafVisits, cutoffs))
  {
    PopTurn(m, t, stack[..], top, visited, leafVisits, cutoffs);
    var leaf;
    value, leaf := Settle(m, stack[top]);
    leafVisits', cutoffs' := leafVisits + leaf, cutoffs;
    if top > 0 {
      var parent := Absorb(stack[top - 1], value);
      stack[top - 1] := parent;
      assert stack[..] == old(stack[..])[top - 1 := parent];
      if parent.alpha >= parent.beta && parent.next < m.nodes[parent.index].childCount {
        cutoffs' := cutoffs + 1;
      }
    }
  }
}
