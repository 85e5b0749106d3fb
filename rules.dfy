/** The rules of the Game of the Amazons on board contents taken as values:
    unblocked queen moves, the three layers of legality, the squares reachable
    from a square and the legal moves of a side in the order the board's
    iterators produce them, the effect of making and undoing a move, and the
    winner. The Board class is proved against these definitions. */
module Rules {
  import opened Geometry

  /** A board's contents, indexed [col][row]. */
  type Grid = g: seq<seq<Piece>> | |g| == SIZE && forall c | 0 <= c < SIZE :: |g[c]| == SIZE
    witness seq(SIZE, c => seq(SIZE, r => Empty))

  /** A position: the board's contents and the side to move. */
  datatype Position = Position(grid: Grid, turn: Piece)

  function At(g: Grid, s: Square): Piece {
    g[s.col][s.row]
  }

  /** g with square s set to p. */
  function Place(g: Grid, s: Square, p: Piece): Grid {
    g[s.col := g[s.col][s.row := p]]
  }

  /** Two grids that agree on every square are equal. */
  lemma GridsEqual(g: Grid, h: Grid)
    requires forall s: Square :: At(g, s) == At(h, s)
    ensures g == h
  {
    forall c | 0 <= c < SIZE
      ensures g[c] == h[c]
    {
      forall r | 0 <= r < SIZE
        ensures g[c][r] == h[c][r]
      {
        assert At(g, Coord(c, r)) == At(h, Coord(c, r));
      }
    }
  }

  // ---------------------------------------------------------------------
  // Unblocked queen moves

  /** Square s does not block a path: it is empty or it is the square to be
      treated as empty. */
  predicate Clear(g: Grid, s: Square, asEmpty: Option<Square>) {
    At(g, s) == Empty || asEmpty == Some(s)
  }

  /** The k-th square from `from` in direction `dir` is on the board and
      clear; a square off the board counts as blocked. */
  predicate ClearAt(g: Grid, from: Square, dir: Dir, k: int, asEmpty: Option<Square>) {
    match QueenMove(from, dir, k)
    case None => false
    case Some(s) => Clear(g, s, asEmpty)
  }

  /** The first n squares from `from` in direction `dir` are all clear. */
  predicate ClearUpTo(g: Grid, from: Square, dir: Dir, n: int, asEmpty: Option<Square>) {
    forall k | 1 <= k <= n :: ClearAt(g, from, dir, k, asEmpty)
  }

  /** from-to is a queen move and every square along it after `from`,
      `to` included, is empty or is `asEmpty`. */
  predicate Unblocked(g: Grid, from: Square, to: Square, asEmpty: Option<Square>) {
    IsQueenMove(from, to) && ClearUpTo(g, from, Direction(from, to), Distance(from, to), asEmpty)
  }

  /** Along a ray, the queen move to the k-th square is unblocked exactly when
      the first k squares are clear. */
  lemma UnblockedAlongRay(g: Grid, from: Square, dir: Dir, k: int, asEmpty: Option<Square>)
    requires 1 <= k && QueenMove(from, dir, k).Some?
    ensures Unblocked(g, from, QueenMove(from, dir, k).value, asEmpty) <==> ClearUpTo(g, from, dir, k, asEmpty)
  {
    StepGeometry(from, dir, k);
  }

  // ---------------------------------------------------------------------
  // Legality, in the three layers of the board's isLegal overloads

  /** `from` holds a piece of the side to move. */
  predicate LegalFrom(p: Position, from: Square) {
    At(p.grid, from) == p.turn
  }

  /** from-to is a legal first part of a move, before the spear is thrown. */
  predicate LegalTo(p: Position, from: Square, to: Square) {
    LegalFrom(p, from) && Unblocked(p.grid, from, to, None)
  }

  /** from-to(spear) is a legal move: the spear flies from `to` with `from`
      treated as empty, so the spear may land on `from`. */
  predicate Legal(p: Position, from: Square, to: Square, spear: Square) {
    LegalTo(p, from, to) && Unblocked(p.grid, to, spear, Some(from))
  }

  predicate LegalMove(p: Position, m: Move) {
    Legal(p, m.from, m.to, m.spear)
  }

  /** What a legal move needs of the squares involved. */
  lemma LegalMoveShape(p: Position, m: Move)
    requires LegalMove(p, m)
    ensures At(p.grid, m.from) == p.turn
    ensures m.from != m.to && m.to != m.spear
    ensures At(p.grid, m.to) == Empty
    ensures At(p.grid, m.spear) == Empty || m.spear == m.from
  {
    QueenMoveReaches(m.from, m.to);
    QueenMoveReaches(m.to, m.spear);
    assert ClearAt(p.grid, m.from, Direction(m.from, m.to), Distance(m.from, m.to), None);
    assert ClearAt(p.grid, m.to, Direction(m.to, m.spear), Distance(m.to, m.spear), Some(m.from));
  }

  // ---------------------------------------------------------------------
  // Making and undoing a move

  /** The board after `m`: the piece on `from` goes to `to`, `from` is
      cleared, then a spear is put on `spear` (last, so a spear thrown back
      to `from` stays). */
  function ApplyGrid(g: Grid, m: Move): Grid {
    Place(Place(Place(g, m.to, At(g, m.from)), m.from, Empty), m.spear, Spear)
  }

  /** The board after taking back `m`: the spear square is cleared first,
      then the piece on `to` goes back to `from` and `to` is cleared. */
  function UndoGrid(g: Grid, m: Move): Grid {
    var cleared := Place(g, m.spear, Empty);
    Place(Place(cleared, m.from, At(cleared, m.to)), m.to, Empty)
  }

  /** The position after a move: the grid changes and the other side moves. */
  function ApplyMove(p: Position, m: Move): Position
    requires p.turn.IsSide()
  {
    Position(ApplyGrid(p.grid, m), p.turn.Opponent())
  }

  /** A legal move puts the mover's piece on `to` and a spear on `spear`,
      empties `from` unless the spear landed there, and changes no other
      square. */
  lemma ApplyEffect(p: Position, m: Move)
    requires LegalMove(p, m)
    ensures var h := ApplyGrid(p.grid, m);
      At(h, m.to) == p.turn && At(h, m.spear) == Spear &&
      (m.spear != m.from ==> At(h, m.from) == Empty) &&
      forall s: Square :: s != m.from && s != m.to && s != m.spear ==> At(h, s) == At(p.grid, s)
  {
    LegalMoveShape(p, m);
  }

  /** Taking back a legal move restores the board exactly, also when the
      spear was thrown back to `from`. */
  lemma {:induction false} UndoAfterApply(p: Position, m: Move)
    requires LegalMove(p, m)
    ensures UndoGrid(ApplyGrid(p.grid, m), m) == p.grid
  {
    LegalMoveShape(p, m);
    var g := p.grid;
    var u := UndoGrid(ApplyGrid(g, m), m);
    forall s: Square
      ensures At(u, s) == At(g, s)
    {
    }
    GridsEqual(u, g);
  }

  // ---------------------------------------------------------------------
  // Squares reachable from a square, in enumeration order

  /** The clear squares of direction `dir` from `from`, starting at step k and
      stopping at the first blocked or off-board square. (No square is SIZE
      or more steps away, as StepGeometry shows; the first test only makes
      the recursion's bound explicit.) */
  function RayFrom(g: Grid, from: Square, dir: Dir, k: int, asEmpty: Option<Square>): seq<Square>
    requires 1 <= k
    decreases SIZE - k, g
  {
    if SIZE <= k then []
    else match QueenMove(from, dir, k)
      case None => []
      case Some(s) => if Clear(g, s, asEmpty) then [s] + RayFrom(g, from, dir, k + 1, asEmpty) else []
  }

  /** The rays of directions dir, dir + 1, ..., 7, one after the other. */
  function Rays(g: Grid, from: Square, dir: int, asEmpty: Option<Square>): seq<Square>
    requires 0 <= dir <= 8
    decreases 8 - dir, g
  {
    if dir == 8 then [] else RayFrom(g, from, dir, 1, asEmpty) + Rays(g, from, dir + 1, asEmpty)
  }

  /** The squares reachable from `from` by an unblocked queen move, treating
      asEmpty as empty: direction by direction, nearest first. */
  function Reachable(g: Grid, from: Square, asEmpty: Option<Square>): seq<Square> {
    Rays(g, from, 0, asEmpty)
  }

  /** Ray elements are unblocked queen moves in direction dir, at least k away. */
  lemma {:induction false} RayFromSound(g: Grid, from: Square, dir: Dir, k: int, asEmpty: Option<Square>)
    requires 1 <= k && ClearUpTo(g, from, dir, k - 1, asEmpty)
    ensures forall t :: t in RayFrom(g, from, dir, k, asEmpty) ==>
      Unblocked(g, from, t, asEmpty) && Direction(from, t) == dir && Distance(from, t) >= k
    decreases SIZE - k
  {
    match QueenMove(from, dir, k)
    case None =>
    case Some(s) =>
      if Clear(g, s, asEmpty) {
        StepGeometry(from, dir, k);
        assert ClearUpTo(g, from, dir, k, asEmpty);
        UnblockedAlongRay(g, from, dir, k, asEmpty);
        RayFromSound(g, from, dir, k + 1, asEmpty);
      }
  }

  /** Every unblocked queen move in direction dir at least k away is in the ray from step k. */
  lemma {:induction false} RayFromComplete(g: Grid, from: Square, t: Square, k: int, asEmpty: Option<Square>)
    requires Unblocked(g, from, t, asEmpty) && 1 <= k <= Distance(from, t)
    ensures t in RayFrom(g, from, Direction(from, t), k, asEmpty)
    decreases SIZE - k
  {
    var dir := Direction(from, t);
    QueenMoveReaches(from, t);
    assert ClearAt(g, from, dir, k, asEmpty);
    var s := QueenMove(from, dir, k).value;
    StepGeometry(from, dir, k);
    if k < Distance(from, t) {
      RayFromComplete(g, from, t, k + 1, asEmpty);
    }
  }

  /** A ray resting on a clear square starts with that square. */
  lemma RayFromHead(g: Grid, from: Square, dir: Dir, k: int, asEmpty: Option<Square>)
    requires 1 <= k && ClearAt(g, from, dir, k, asEmpty)
    ensures QueenMove(from, dir, k).Some?
    ensures RayFrom(g, from, dir, k, asEmpty) == [QueenMove(from, dir, k).value] + RayFrom(g, from, dir, k + 1, asEmpty)
  {
    assert QueenMove(from, dir, k).Some?;
    StepGeometry(from, dir, k);
  }

  /** What remains of the enumeration of reachable squares from the k-th
      square in direction d on: the rest of that ray, then the later
      directions; nothing once d is 8. */
  function Pending(g: Grid, from: Square, d: int, k: int, asEmpty: Option<Square>): seq<Square>
    requires 0 <= d <= 8 && (d < 8 ==> 1 <= k)
  {
    if d == 8 then [] else RayFrom(g, from, d, k, asEmpty) + Rays(g, from, d + 1, asEmpty)
  }

  /** From the first square of direction 0 on, everything reachable remains. */
  lemma PendingStart(g: Grid, from: Square, asEmpty: Option<Square>)
    ensures Pending(g, from, 0, 1, asEmpty) == Reachable(g, from, asEmpty)
  {
  }

  /** Resting on a clear square, that square comes first and the rest
      starts one step further along. */
  lemma PendingAdvance(g: Grid, from: Square, d: Dir, k: int, asEmpty: Option<Square>)
    requires 1 <= k && ClearAt(g, from, d, k, asEmpty)
    ensures QueenMove(from, d, k).Some?
    ensures Pending(g, from, d, k, asEmpty) == [QueenMove(from, d, k).value] + Pending(g, from, d, k + 1, asEmpty)
  {
    RayFromHead(g, from, d, k, asEmpty);
    var later := Rays(g, from, d + 1, asEmpty);
    var ray := RayFrom(g, from, d, k + 1, asEmpty);
    assert ([QueenMove(from, d, k).value] + ray) + later == [QueenMove(from, d, k).value] + (ray + later);
  }

  /** A blocked or off-board k-th square ends direction d: what remains
      starts with the next direction. */
  lemma PendingSkip(g: Grid, from: Square, d: Dir, k: int, asEmpty: Option<Square>)
    requires 1 <= k && !ClearAt(g, from, d, k, asEmpty)
    ensures Pending(g, from, d, k, asEmpty) == Pending(g, from, d + 1, 1, asEmpty)
  {
  }

  /** Given the first k - 1 squares of a ray clear, the move to its k-th
      square is unblocked exactly when that square is on the board and
      clear; if it is not, the ray from step k is empty. */
  lemma RayStep(g: Grid, from: Square, dir: Dir, k: int, asEmpty: Option<Square>)
    requires 1 <= k && ClearUpTo(g, from, dir, k - 1, asEmpty)
    ensures var t := QueenMove(from, dir, k);
      (t.Some? && Unblocked(g, from, t.value, asEmpty)) <==> ClearAt(g, from, dir, k, asEmpty)
    ensures ClearAt(g, from, dir, k, asEmpty) ==> ClearUpTo(g, from, dir, k, asEmpty)
    ensures !ClearAt(g, from, dir, k, asEmpty) ==> RayFrom(g, from, dir, k, asEmpty) == []
  {
    if QueenMove(from, dir, k).Some? {
      UnblockedAlongRay(g, from, dir, k, asEmpty);
    }
  }

  /** Rays from direction d0 on hold exactly the unblocked queen moves whose
      direction is d0 or later. */
  lemma {:induction false} RaysIff(g: Grid, from: Square, d0: int, t: Square, asEmpty: Option<Square>)
    requires 0 <= d0 <= 8
    ensures t in Rays(g, from, d0, asEmpty) <==> Unblocked(g, from, t, asEmpty) && Direction(from, t) >= d0
    decreases 8 - d0
  {
    if d0 < 8 {
      RayFromSound(g, from, d0, 1, asEmpty);
      RaysIff(g, from, d0 + 1, t, asEmpty);
      if Unblocked(g, from, t, asEmpty) && Direction(from, t) == d0 {
        RayFromComplete(g, from, t, 1, asEmpty);
      }
    }
  }

  /** The enumeration of reachable squares holds exactly the squares s with
      an unblocked queen move from `from` to s. */
  lemma ReachableIff(g: Grid, from: Square, asEmpty: Option<Square>, t: Square)
    ensures t in Reachable(g, from, asEmpty) <==> Unblocked(g, from, t, asEmpty)
  {
    RaysIff(g, from, 0, t, asEmpty);
  }

  /** s comes before t in the enumeration order of squares reachable from
      `from`: an earlier direction, or the same direction and nearer. */
  predicate Before(from: Square, s: Square, t: Square) {
    IsQueenMove(from, s) && IsQueenMove(from, t) &&
    (Direction(from, s) < Direction(from, t) ||
     (Direction(from, s) == Direction(from, t) && Distance(from, s) < Distance(from, t)))
  }

  predicate Ordered(from: Square, sqs: seq<Square>) {
    forall i, j | 0 <= i < j < |sqs| :: Before(from, sqs[i], sqs[j])
  }

  lemma OrderedConcat(from: Square, a: seq<Square>, b: seq<Square>)
    requires Ordered(from, a) && Ordered(from, b)
    requires forall x, y | x in a && y in b :: Before(from, x, y)
    ensures Ordered(from, a + b)
  {
    var r := a + b;
    forall i, j | 0 <= i < j < |r|
      ensures Before(from, r[i], r[j])
    {
      if j < |a| {
        assert r[i] == a[i] && r[j] == a[j];
      } else if i < |a| {
        assert r[i] in a && r[j] in b;
      } else {
        assert r[i] == b[i - |a|] && r[j] == b[j - |a|];
      }
    }
  }

  lemma {:induction false} RayFromOrdered(g: Grid, from: Square, dir: Dir, k: int, asEmpty: Option<Square>)
    requires 1 <= k <= SIZE && ClearUpTo(g, from, dir, k - 1, asEmpty)
    ensures Ordered(from, RayFrom(g, from, dir, k, asEmpty))
    ensures |RayFrom(g, from, dir, k, asEmpty)| <= SIZE - k
    decreases SIZE - k
  {
    match QueenMove(from, dir, k)
    case None =>
    case Some(s) =>
      if Clear(g, s, asEmpty) {
        StepGeometry(from, dir, k);
        assert ClearUpTo(g, from, dir, k, asEmpty);
        RayFromOrdered(g, from, dir, k + 1, asEmpty);
        RayFromSound(g, from, dir, k + 1, asEmpty);
        OrderedConcat(from, [s], RayFrom(g, from, dir, k + 1, asEmpty));
      }
  }

  /** Every square of the rays from direction d0 on is a queen move whose
      direction is d0 or later. */
  lemma RaysDirections(g: Grid, from: Square, d0: int, asEmpty: Option<Square>)
    requires 0 <= d0 <= 8
    ensures forall y | y in Rays(g, from, d0, asEmpty) :: IsQueenMove(from, y) && Direction(from, y) >= d0
  {
    forall y | y in Rays(g, from, d0, asEmpty)
      ensures IsQueenMove(from, y) && Direction(from, y) >= d0
    {
      RaysIff(g, from, d0, y, asEmpty);
    }
  }

  /** Every square of a ray from its first step is a queen move in its direction. */
  lemma RayDirection(g: Grid, from: Square, d: Dir, asEmpty: Option<Square>)
    ensures forall x | x in RayFrom(g, from, d, 1, asEmpty) :: IsQueenMove(from, x) && Direction(from, x) == d
  {
    RayFromSound(g, from, d, 1, asEmpty);
  }

  lemma {:induction false} RaysOrdered(g: Grid, from: Square, d0: int, asEmpty: Option<Square>)
    requires 0 <= d0 <= 8
    ensures Ordered(from, Rays(g, from, d0, asEmpty))
    ensures |Rays(g, from, d0, asEmpty)| <= (8 - d0) * (SIZE - 1)
    decreases 8 - d0
  {
    if d0 < 8 {
      var a := RayFrom(g, from, d0, 1, asEmpty);
      var b := Rays(g, from, d0 + 1, asEmpty);
      assert Rays(g, from, d0, asEmpty) == a + b;
      RayFromOrdered(g, from, d0, 1, asEmpty);
      RaysOrdered(g, from, d0 + 1, asEmpty);
      RayDirection(g, from, d0, asEmpty);
      RaysDirections(g, from, d0 + 1, asEmpty);
      OrderedConcat(from, a, b);
    }
  }

  /** The reachable squares come direction by direction in ascending order
      and by increasing distance within a direction, so none is repeated. */
  lemma ReachableOrdered(g: Grid, from: Square, asEmpty: Option<Square>)
    ensures Ordered(from, Reachable(g, from, asEmpty))
    ensures forall i, j | 0 <= i < j < |Reachable(g, from, asEmpty)| ::
      Reachable(g, from, asEmpty)[i] != Reachable(g, from, asEmpty)[j]
  {
    RaysOrdered(g, from, 0, asEmpty);
  }

  /** At most 72 squares (8 directions, 9 steps each) are reachable from any square. */
  lemma ReachableLength(g: Grid, from: Square, asEmpty: Option<Square>)
    ensures |Reachable(g, from, asEmpty)| <= 72
  {
    RaysOrdered(g, from, 0, asEmpty);
  }

  /** After an unblocked queen move from-to, a spear can always be thrown
      from `to` (treating `from` as empty): the square one step back towards
      `from` is free. */
  lemma SpearTarget(g: Grid, from: Square, to: Square)
    requires Unblocked(g, from, to, None)
    ensures Reachable(g, to, Some(from)) != []
  {
    var dir, d := Direction(from, to), Distance(from, to);
    QueenMoveReaches(from, to);
    StepBack(from, dir, d);
    var b := if d == 1 then from else QueenMove(from, dir, d - 1).value;
    if d > 1 {
      assert ClearAt(g, from, dir, d - 1, None);
    }
    assert ClearAt(g, to, Direction(to, b), 1, Some(from));
    ReachableIff(g, to, Some(from), b);
  }

  // ---------------------------------------------------------------------
  // Legal moves of a side, in enumeration order

  /** The moves from-to(s) for every s of spears, in order. */
  function SpearMoves(from: Square, to: Square, spears: seq<Square>): seq<Move> {
    if spears == [] then [] else [Move(from, to, spears[0])] + SpearMoves(from, to, spears[1..])
  }

  /** For each destination of tos in turn, every spear throw from it. */
  function PieceMoves(g: Grid, from: Square, tos: seq<Square>): seq<Move> {
    if tos == [] then []
    else SpearMoves(from, tos[0], Reachable(g, tos[0], Some(from))) + PieceMoves(g, from, tos[1..])
  }

  /** For each square of starts holding a piece of `side`, every move of that piece. */
  function MovesFrom(g: Grid, side: Piece, starts: seq<Square>): seq<Move> {
    if starts == [] then []
    else
      var first := if At(g, starts[0]) == side then PieceMoves(g, starts[0], Reachable(g, starts[0], None)) else [];
      first + MovesFrom(g, side, starts[1..])
  }

  /** All legal moves of `side`: origins in square order, then destinations,
      then spear throws, each in reachable-square order. */
  function LegalMoves(g: Grid, side: Piece): seq<Move> {
    MovesFrom(g, side, AllSquares())
  }

  /** Taking the first spear throw off the front of a run of throws. */
  lemma SpearMovesHead(from: Square, to: Square, spear: Square, rest: seq<Square>, later: seq<Move>)
    ensures SpearMoves(from, to, [spear] + rest) + later == [Move(from, to, spear)] + (SpearMoves(from, to, rest) + later)
  {
    assert ([spear] + rest)[1..] == rest;
  }

  /** Taking the first destination off the front of a piece's destinations. */
  lemma PieceMovesHead(g: Grid, from: Square, to: Square, rest: seq<Square>, later: seq<Move>)
    ensures PieceMoves(g, from, [to] + rest) + later ==
      SpearMoves(from, to, Reachable(g, to, Some(from))) + (PieceMoves(g, from, rest) + later)
  {
    assert ([to] + rest)[1..] == rest;
  }

  /** Taking the first starting square off the front of the starting squares. */
  lemma MovesFromHead(g: Grid, side: Piece, start: Square, rest: seq<Square>)
    ensures MovesFrom(g, side, [start] + rest) ==
      (if At(g, start) == side then PieceMoves(g, start, Reachable(g, start, None)) else []) +
      MovesFrom(g, side, rest)
  {
    assert ([start] + rest)[1..] == rest;
  }

  lemma {:induction false} SpearMovesIff(from: Square, to: Square, spears: seq<Square>, m: Move)
    ensures m in SpearMoves(from, to, spears) <==> m.from == from && m.to == to && m.spear in spears
    ensures |SpearMoves(from, to, spears)| == |spears|
  {
    if spears != [] {
      SpearMovesIff(from, to, spears[1..], m);
      assert spears == [spears[0]] + spears[1..];
    }
  }

  lemma {:induction false} PieceMovesIff(g: Grid, from: Square, tos: seq<Square>, m: Move)
    ensures m in PieceMoves(g, from, tos) <==>
      m.from == from && m.to in tos && m.spear in Reachable(g, m.to, Some(from))
  {
    if tos != [] {
      SpearMovesIff(from, tos[0], Reachable(g, tos[0], Some(from)), m);
      PieceMovesIff(g, from, tos[1..], m);
      assert tos == [tos[0]] + tos[1..];
    }
  }

  lemma {:induction false} MovesFromIff(g: Grid, side: Piece, starts: seq<Square>, m: Move)
    ensures m in MovesFrom(g, side, starts) <==>
      m.from in starts && At(g, m.from) == side &&
      m.to in Reachable(g, m.from, None) && m.spear in Reachable(g, m.to, Some(m.from))
  {
    if starts != [] {
      PieceMovesIff(g, starts[0], Reachable(g, starts[0], None), m);
      MovesFromIff(g, side, starts[1..], m);
      assert starts == [starts[0]] + starts[1..];
    }
  }

  /** The enumeration of a side's moves holds exactly the moves that are
      legal for that side. */
  lemma LegalMovesIff(g: Grid, side: Piece, m: Move)
    ensures m in LegalMoves(g, side) <==> LegalMove(Position(g, side), m)
  {
    MovesFromIff(g, side, AllSquares(), m);
    AllSquaresComplete(m.from);
    ReachableIff(g, m.from, None, m.to);
    ReachableIff(g, m.to, Some(m.from), m.spear);
  }

  predicate Distinct<T(==)>(s: seq<T>) {
    forall i, j | 0 <= i < j < |s| :: s[i] != s[j]
  }

  lemma DistinctConcat<T>(a: seq<T>, b: seq<T>)
    requires Distinct(a) && Distinct(b)
    requires forall x :: x in a ==> x !in b
    ensures Distinct(a + b)
  {
    var r := a + b;
    forall i, j | 0 <= i < j < |r|
      ensures r[i] != r[j]
    {
      if i < |a| && |a| <= j {
        assert r[i] in a && r[j] == b[j - |a|];
      } else if |a| <= i {
        assert r[i] == b[i - |a|] && r[j] == b[j - |a|];
      }
    }
  }

  lemma {:induction false} SpearMovesDistinct(from: Square, to: Square, spears: seq<Square>)
    requires Distinct(spears)
    ensures Distinct(SpearMoves(from, to, spears))
  {
    if spears != [] {
      SpearMovesDistinct(from, to, spears[1..]);
      SpearMovesIff(from, to, spears[1..], Move(from, to, spears[0]));
      DistinctConcat([Move(from, to, spears[0])], SpearMoves(from, to, spears[1..]));
    }
  }

  lemma {:induction false} PieceMovesDistinct(g: Grid, from: Square, tos: seq<Square>)
    requires Distinct(tos)
    ensures Distinct(PieceMoves(g, from, tos))
  {
    if tos != [] {
      var spears := Reachable(g, tos[0], Some(from));
      var a := SpearMoves(from, tos[0], spears);
      var b := PieceMoves(g, from, tos[1..]);
      ReachableOrdered(g, tos[0], Some(from));
      SpearMovesDistinct(from, tos[0], spears);
      PieceMovesDistinct(g, from, tos[1..]);
      forall m | m in a
        ensures m !in b
      {
        SpearMovesIff(from, tos[0], spears, m);
        PieceMovesIff(g, from, tos[1..], m);
      }
      DistinctConcat(a, b);
    }
  }

  lemma {:induction false} PieceMovesLength(g: Grid, from: Square, tos: seq<Square>)
    ensures |PieceMoves(g, from, tos)| <= |tos| * 72
  {
    if tos != [] {
      var spears := Reachable(g, tos[0], Some(from));
      ReachableLength(g, tos[0], Some(from));
      SpearMovesIff(from, tos[0], spears, Move(from, from, from));
      PieceMovesLength(g, from, tos[1..]);
    }
  }

  lemma {:induction false} MovesFromDistinct(g: Grid, side: Piece, starts: seq<Square>)
    requires Distinct(starts)
    ensures Distinct(MovesFrom(g, side, starts))
  {
    if starts != [] {
      var tos := Reachable(g, starts[0], None);
      var a := if At(g, starts[0]) == side then PieceMoves(g, starts[0], tos) else [];
      var b := MovesFrom(g, side, starts[1..]);
      ReachableOrdered(g, starts[0], None);
      PieceMovesDistinct(g, starts[0], tos);
      MovesFromDistinct(g, side, starts[1..]);
      forall m | m in a
        ensures m !in b
      {
        PieceMovesIff(g, starts[0], tos, m);
        MovesFromIff(g, side, starts[1..], m);
      }
      DistinctConcat(a, b);
    }
  }

  lemma {:induction false} MovesFromLength(g: Grid, side: Piece, starts: seq<Square>)
    ensures |MovesFrom(g, side, starts)| <= |starts| * 5184
  {
    if starts != [] {
      var tos := Reachable(g, starts[0], None);
      ReachableLength(g, starts[0], None);
      PieceMovesLength(g, starts[0], tos);
      MovesFromLength(g, side, starts[1..]);
    }
  }

  /** The set of moves legal for `side`. */
  function LegalSet(g: Grid, side: Piece): set<Move> {
    set f, t, s | f in AllSquares() && t in AllSquares() && s in AllSquares() &&
      LegalMove(Position(g, side), Move(f, t, s)) :: Move(f, t, s)
  }

  lemma {:induction false} DistinctCard<T>(s: seq<T>)
    requires Distinct(s)
    ensures |set x | x in s| == |s|
  {
    if s != [] {
      var t := s[..|s| - 1];
      assert Distinct(t);
      DistinctCard(t);
      var x := s[|s| - 1];
      assert (set y | y in s) == (set y | y in t) + {x};
      assert x !in t;
    }
  }

  /** The enumeration holds exactly the legal moves of `side`. */
  lemma LegalMovesSet(g: Grid, side: Piece)
    ensures (set m | m in LegalMoves(g, side)) == LegalSet(g, side)
  {
    forall m | m in LegalSet(g, side)
      ensures m in LegalMoves(g, side)
    {
      LegalMovesIff(g, side, m);
    }
    forall m | m in LegalMoves(g, side)
      ensures m in LegalSet(g, side)
    {
      LegalMovesIff(g, side, m);
      AllSquaresComplete(m.from);
      AllSquaresComplete(m.to);
      AllSquaresComplete(m.spear);
    }
  }

  /** The enumeration lists each legal move of `side` exactly once, so its
      length is the number of legal moves. */
  lemma MobilityCount(g: Grid, side: Piece)
    ensures |LegalMoves(g, side)| == |LegalSet(g, side)|
  {
    AllSquaresDistinct();
    MovesFromDistinct(g, side, AllSquares());
    DistinctCard(LegalMoves(g, side));
    LegalMovesSet(g, side);
  }

  /** A side has at most 100 * 72 * 72 legal moves. */
  lemma MobilityBound(g: Grid, side: Piece)
    ensures |LegalMoves(g, side)| <= 518400
  {
    MovesFromLength(g, side, AllSquares());
  }

  // ---------------------------------------------------------------------
  // Winner and the initial position

  /** None while the side to move has a legal move; otherwise the other side. */
  function Winner(p: Position): Option<Piece>
    requires p.turn.IsSide()
  {
    if LegalMoves(p.grid, p.turn) == [] then Some(p.turn.Opponent()) else None
  }

  /** The game is over exactly when the side to move has no legal move, and
      then the other side has won. */
  lemma WinnerIff(p: Position)
    requires p.turn.IsSide()
    ensures Winner(p) == None <==> exists m :: LegalMove(p, m)
    ensures Winner(p) != None ==> Winner(p) == Some(p.turn.Opponent())
  {
    if Winner(p) == None {
      var m := LegalMoves(p.grid, p.turn)[0];
      LegalMovesIff(p.grid, p.turn, m);
    } else {
      forall m
        ensures !LegalMove(p, m)
      {
        LegalMovesIff(p.grid, p.turn, m);
      }
    }
  }

  const BlackStart: set<Square> := {Coord(0, 6), Coord(3, 9), Coord(6, 9), Coord(9, 6)}
  const WhiteStart: set<Square> := {Coord(0, 3), Coord(3, 0), Coord(6, 0), Coord(9, 3)}

  function EmptyGrid(): Grid {
    seq(SIZE, c => seq(SIZE, r => Empty))
  }

  /** The starting position's grid, set up in the order the board sets it up. */
  function InitialGrid(): Grid {
    var blacks := Place(Place(Place(Place(EmptyGrid(), Coord(0, 6), Black), Coord(3, 9), Black), Coord(6, 9), Black), Coord(9, 6), Black);
    Place(Place(Place(Place(blacks, Coord(0, 3), White), Coord(3, 0), White), Coord(6, 0), White), Coord(9, 3), White)
  }

  /** Black's four pieces, White's four pieces, every other square empty and
      no spear. */
  lemma InitialCells(s: Square)
    ensures At(InitialGrid(), s) == Black <==> s in BlackStart
    ensures At(InitialGrid(), s) == White <==> s in WhiteStart
    ensures At(InitialGrid(), s) == Empty <==> s !in BlackStart && s !in WhiteStart
    ensures At(InitialGrid(), s) != Spear
  {
  }

  /** A move one square along a column, throwing the spear one further,
      when both squares are empty and `from` holds the side to move. */
  lemma ColumnStepLegal(g: Grid, side: Piece, from: Square, up: bool)
    requires if up then from.row + 2 < SIZE else 2 <= from.row
    requires At(g, from) == side
    requires var d := if up then 1 else -1;
      At(g, Coord(from.col, from.row + d)) == Empty && At(g, Coord(from.col, from.row + 2 * d)) == Empty
    ensures var d := if up then 1 else -1;
      Move(from, Coord(from.col, from.row + d), Coord(from.col, from.row + 2 * d)) in LegalMoves(g, side)
  {
    var d := if up then 1 else -1;
    var dir := if up then 0 else 4;
    var to: Square := Coord(from.col, from.row + d);
    var spear: Square := Coord(from.col, from.row + 2 * d);
    assert Direction(from, to) == dir && Distance(from, to) == 1;
    assert QueenMove(from, dir, 1) == Some(to);
    assert Unblocked(g, from, to, None);
    assert Direction(to, spear) == dir && Distance(to, spear) == 1;
    assert QueenMove(to, dir, 1) == Some(spear);
    assert Unblocked(g, to, spear, Some(from));
    LegalMovesIff(g, side, Move(from, to, spear));
  }

  /** In the starting position both sides can move, so there is no winner. */
  lemma InitialNotOver(g: Grid)
    requires g == InitialGrid()
    ensures Move(Coord(0, 3), Coord(0, 4), Coord(0, 5)) in LegalMoves(g, White)
    ensures Move(Coord(0, 6), Coord(0, 5), Coord(0, 4)) in LegalMoves(g, Black)
    ensures Winner(Position(g, White)) == None
  {
    InitialCells(Coord(0, 3));
    InitialCells(Coord(0, 4));
    InitialCells(Coord(0, 5));
    InitialCells(Coord(0, 6));
    ColumnStepLegal(g, White, Coord(0, 3), true);
    ColumnStepLegal(g, Black, Coord(0, 6), false);
  }
}
