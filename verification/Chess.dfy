/** What the search sees of a chess position, and the value it is meant to compute. */
module Chess {
  const INF := 1000000
  const MATE := 30000
  const MAX_GPU_DEPTH := 12

  /** Piece codes: 0..5 white pawn..king, 6..11 black pawn..king, 12 empty. */
  type Squares = s: seq<int> | |s| == 64 && forall k :: 0 <= k < 64 ==> 0 <= s[k] <= 12
    witness seq(64, _ => 12)

  type Move = nat

  /** `state` is everything that evaluation never reads: castling and en passant
      rights, clocks, and the repetition history. */
  datatype Position = Position(squares: Squares, whiteToMove: bool, state: seq<int>)

  /** The rules come from a vendored library; here they are a record of functions. */
  datatype Rules = Rules(
    legalMoves: Position -> seq<Move>,
    makeMove: (Position, Move) -> Position,
    inCheck: Position -> bool,
    drawn: Position -> bool)
  {
    function Moves(p: Position): seq<Move> {
      legalMoves(p)
    }

    function Play(p: Position, m: Move): Position {
      makeMove(p, m)
    }

    predicate InCheck(p: Position) {
      inCheck(p)
    }

    predicate Drawn(p: Position) {
      drawn(p)
    }

    function Width(p: Position): nat {
      |Moves(p)|
    }

    function Child(p: Position, i: nat): Position
      requires i < Width(p)
    {
      Play(p, Moves(p)[i])
    }

    /** No legal move, or a draw by rule: the search never looks below such a position. */
    predicate Over(p: Position) {
      Width(p) == 0 || Drawn(p)
    }
  }

  // ---------------------------------------------------------------- evaluation

  function PieceValue(kind: int): int {
    if kind == 0 then 100
    else if kind == 1 then 320
    else if kind == 2 then 330
    else if kind == 3 then 500
    else if kind == 4 then 900
    else 0
  }

  /** Worth of one square for White. */
  function SquareWorth(code: int): int {
    if code < 6 then PieceValue(code)
    else if code < 12 then -PieceValue(code - 6)
    else 0
  }

  function Material(squares: seq<int>): int {
    if squares == [] then 0
    else Material(squares[..|squares| - 1]) + SquareWorth(squares[|squares| - 1])
  }

  function Static(squares: seq<int>, whiteToMove: bool): int {
    if whiteToMove then Material(squares) else -Material(squares)
  }

  lemma {:induction false} MaterialBound(squares: seq<int>)
    ensures -900 * |squares| <= Material(squares) <= 900 * |squares|
  {
    if squares != [] {
      MaterialBound(squares[..|squares| - 1]);
    }
  }

  /** The evaluation is a zero-sum score: it changes sign with the side to move,
      and stays strictly inside the mate scores' and the window's range. */
  lemma StaticIsBoundedAndZeroSum(squares: Squares, whiteToMove: bool)
    ensures -57600 <= Static(squares, whiteToMove) <= 57600
    ensures -INF < Static(squares, whiteToMove) < INF
    ensures Static(squares, !whiteToMove) == -Static(squares, whiteToMove)
  {
    MaterialBound(squares);
  }

  function Pieces(squares: seq<int>, code: int): nat {
    if squares == [] then 0
    else Pieces(squares[..|squares| - 1], code) + if squares[|squares| - 1] == code then 1 else 0
  }

  /** White's pieces less black's, each at its worth; the side to move sees it from its side. */
  lemma {:induction false} MaterialByPieces(squares: seq<int>)
    ensures Material(squares) ==
      100 * (Pieces(squares, 0) - Pieces(squares, 6)) + 320 * (Pieces(squares, 1) - Pieces(squares, 7))
      + 330 * (Pieces(squares, 2) - Pieces(squares, 8)) + 500 * (Pieces(squares, 3) - Pieces(squares, 9))
      + 900 * (Pieces(squares, 4) - Pieces(squares, 10))
  {
    if squares != [] {
      MaterialByPieces(squares[..|squares| - 1]);
    }
  }

  lemma StaticByPieces(squares: Squares)
    ensures Static(squares, true) ==
      100 * (Pieces(squares, 0) - Pieces(squares, 6)) + 320 * (Pieces(squares, 1) - Pieces(squares, 7))
      + 330 * (Pieces(squares, 2) - Pieces(squares, 8)) + 500 * (Pieces(squares, 3) - Pieces(squares, 9))
      + 900 * (Pieces(squares, 4) - Pieces(squares, 10))
    ensures Static(squares, false) == -Static(squares, true)
  {
    MaterialByPieces(squares);
  }

  method Evaluate(p: Position) returns (score: int)
    ensures score == Static(p.squares, p.whiteToMove)
  {
    var white := 0;
    for sq := 0 to 64
      invariant white == Material(p.squares[..sq])
    {
      var code := p.squares[sq];
      if code < 12 {
        white := white + if code < 6 then PieceValue(code) else -PieceValue(code - 6);
      }
      assert p.squares[..sq + 1][..sq] == p.squares[..sq];
    }
    assert p.squares[..64] == p.squares;
    score := if p.whiteToMove then white else -white;
  }

  // ------------------------------------------------------------------ the value

  function Max(a: int, b: int): int {
    if a < b then b else a
  }

  /** A depth-limited game tree. `Ended` is a position without legal moves or drawn by
      rule, `Horizon` one where the depth ran out. */
  datatype Tree =
    | Ended(score: int)
    | Horizon(squares: Squares, whiteToMove: bool)
    | Inner(kids: Trees)

  datatype Trees = Nil | Cons(head: Tree, tail: Trees)

  /** The tree the program searches, with its tests in their order: no moves (mate or
      stalemate), drawn, depth used up. */
  function GameTree(g: Rules, p: Position, depth: nat, ply: int): Tree
    decreases depth, g.Width(p) + 1
  {
    if g.Width(p) == 0 then Ended(if g.InCheck(p) then -MATE + ply else 0)
    else if g.Drawn(p) then Ended(0)
    else if depth == 0 then Horizon(p.squares, p.whiteToMove)
    else Inner(Kids(g, p, depth, ply, 0))
  }

  /** The subtrees of the moves from `i` on. */
  function Kids(g: Rules, p: Position, depth: nat, ply: int, i: nat): Trees
    requires depth > 0 && i <= g.Width(p)
    decreases depth, g.Width(p) - i
  {
    if i == g.Width(p) then Nil
    else Cons(GameTree(g, g.Child(p, i), depth - 1, ply + 1), Kids(g, p, depth, ply, i + 1))
  }

  function LeafScore(t: Tree): int
    requires !t.Inner?
  {
    if t.Ended? then t.score else Static(t.squares, t.whiteToMove)
  }

  /** Negamax value of a tree, for the side to move at its root. */
  function Value(t: Tree): int {
    if t.Inner? then Best(t.kids) else LeafScore(t)
  }

  function Best(ts: Trees): int {
    if ts.Nil? then -INF else Max(-Value(ts.head), Best(ts.tail))
  }

  function Length(ts: Trees): nat {
    if ts.Nil? then 0 else 1 + Length(ts.tail)
  }

  function Nth(ts: Trees, i: nat): Tree
    requires i < Length(ts)
  {
    if i == 0 then ts.head else Nth(ts.tail, i - 1)
  }

  function Height(t: Tree): nat {
    if t.Inner? then 1 + HeightRest(t.kids) else 0
  }

  function HeightRest(ts: Trees): nat {
    if ts.Nil? then 0 else Max(Height(ts.head), HeightRest(ts.tail))
  }

  /** A tree the search can meet: inner nodes have moves, leaf scores lie inside the window. */
  predicate Sound(t: Tree) {
    if t.Inner? then t.kids.Cons? && AllSound(t.kids) else -INF < LeafScore(t) < INF
  }

  predicate AllSound(ts: Trees) {
    ts.Cons? ==> Sound(ts.head) && AllSound(ts.tail)
  }

  /** Every mate score of the search stays inside the window; the command line
      allows depths up to 12, far below this. */
  predicate InRange(depth: nat, ply: int) {
    0 <= ply && ply + depth <= INF
  }

  lemma {:induction false} GameTreeIsSound(g: Rules, p: Position, depth: nat, ply: int)
    requires InRange(depth, ply)
    ensures Sound(GameTree(g, p, depth, ply))
    decreases depth, g.Width(p) + 1
  {
    if !g.Over(p) && depth > 0 {
      KidsAreSound(g, p, depth, ply, 0);
    } else {
      StaticIsBoundedAndZeroSum(p.squares, p.whiteToMove);
    }
  }

  lemma {:induction false} KidsAreSound(g: Rules, p: Position, depth: nat, ply: int, i: nat)
    requires InRange(depth, ply) && depth > 0 && i <= g.Width(p)
    ensures AllSound(Kids(g, p, depth, ply, i))
    decreases depth, g.Width(p) - i
  {
    if i < g.Width(p) {
      GameTreeIsSound(g, g.Child(p, i), depth - 1, ply + 1);
      KidsAreSound(g, p, depth, ply, i + 1);
    }
  }

  lemma {:induction false} KidsLength(g: Rules, p: Position, depth: nat, ply: int, i: nat)
    requires depth > 0 && i <= g.Width(p)
    ensures Length(Kids(g, p, depth, ply, i)) == g.Width(p) - i
    decreases g.Width(p) - i
  {
    if i < g.Width(p) {
      KidsLength(g, p, depth, ply, i + 1);
    }
  }

  lemma {:induction false} ValueInRange(t: Tree)
    requires Sound(t)
    ensures -INF < Value(t) < INF
  {
    if t.Inner? {
      BestInRange(t.kids);
    }
  }

  lemma {:induction false} BestInRange(ts: Trees)
    requires AllSound(ts)
    ensures -INF <= Best(ts) < INF
    ensures ts.Cons? ==> -INF < Best(ts)
  {
    if ts.Cons? {
      ValueInRange(ts.head);
      BestInRange(ts.tail);
    }
  }

  /** `Best` is the least upper bound of the moves' values. */
  lemma {:induction false} BestIsMaximum(ts: Trees)
    requires AllSound(ts) && ts.Cons?
    ensures forall i | 0 <= i < Length(ts) :: -Value(Nth(ts, i)) <= Best(ts)
    ensures exists i | 0 <= i < Length(ts) :: -Value(Nth(ts, i)) == Best(ts)
  {
    ValueInRange(ts.head);
    assert Nth(ts, 0) == ts.head;
    forall i | 0 < i < Length(ts)
      ensures -Value(Nth(ts, i)) <= Best(ts)
    {
      BestIsMaximum(ts.tail);
      assert Nth(ts, i) == Nth(ts.tail, i - 1);
    }
    if ts.tail.Cons? {
      BestIsMaximum(ts.tail);
      var i :| 0 <= i < Length(ts.tail) && -Value(Nth(ts.tail, i)) == Best(ts.tail);
      assert Nth(ts, i + 1) == Nth(ts.tail, i);
    }
  }

  // ---------------------------------------------------------------- mutable state

  /** A board that moves are played on and taken back from. The library restores a
      position from its stack of saved states and the move that is taken back. */
  class Board {
    var pos: Position
    var made: seq<(Position, Move)>

    constructor (p: Position)
      ensures pos == p && made == []
    {
      pos, made := p, [];
    }

    method MakeMove(g: Rules, m: Move)
      modifies this
      ensures pos == g.Play(old(pos), m)
      ensures made == old(made) + [(old(pos), m)]
    {
      made := made + [(pos, m)];
      pos := g.Play(pos, m);
    }

    method UnmakeMove(m: Move)
      requires made != [] && made[|made| - 1].1 == m
      modifies this
      ensures pos == old(made)[|old(made)| - 1].0
      ensures made == old(made)[..|old(made)| - 1]
    {
      pos := made[|made| - 1].0;
      made := made[..|made| - 1];
    }
  }

  /** The counters of one search task. */
  class Stats {
    var nodes: nat
    var leaves: nat
    var cutoffs: nat

    constructor ()
      ensures nodes == leaves == cutoffs == 0
    {
      nodes, leaves, cutoffs := 0, 0, 0;
    }
  }
}
