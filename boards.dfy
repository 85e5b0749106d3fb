/** The mutable game board: a 10x10 array of pieces indexed [col][row], the
    side to move and the stack of moves made, with the operations that read,
    change and enumerate it. Every operation is proved against the rules on
    values in module Rules. */
module Boards {
  import opened Geometry
  import opened Rules

  class Board {
    /** The cells, indexed [col, row]. */
    var pieces: array2<Piece>
    /** The side to move. */
    var turn: Piece
    /** The moves made and not undone; the top of the stack is the last element. */
    var moves: seq<Move>
    /** The cells as a value. */
    ghost var cells: Grid

    /** The array has the board's dimensions and holds `cells`; a side is to move. */
    ghost predicate Valid()
      reads this, pieces
    {
      pieces.Length0 == SIZE && pieces.Length1 == SIZE && turn.IsSide() &&
      forall c, r | 0 <= c < SIZE && 0 <= r < SIZE :: pieces[c, r] == cells[c][r]
    }

    /** The position as a value: the cells and the side to move. */
    ghost function State(): Position
      reads this
    {
      Position(cells, turn)
    }

    /** The number of moves made and not undone. */
    function NumMoves(): (n: nat)
      reads this
      ensures n == |moves|
    {
      |moves|
    }

    /** The side to move, which is always White or Black. */
    function Turn(): (side: Piece)
      requires Valid()
      reads this, pieces
      ensures side == State().turn && side.IsSide()
    {
      turn
    }

    /** The contents of square s. */
    function Get(s: Square): (p: Piece)
      requires Valid()
      reads this, pieces
      ensures p == At(cells, s)
    {
      pieces[s.col, s.row]
    }

    /** Sets square s to p; no other cell changes. */
    method Put(p: Piece, s: Square)
      requires Valid()
      modifies this`cells, pieces
      ensures Valid()
      ensures cells == Place(old(cells), s, p)
    {
      pieces[s.col, s.row] := p;
      cells := Place(cells, s, p);
    }

    /** A board in the starting position. */
    constructor ()
      ensures Valid() && fresh(pieces)
      ensures State() == Position(InitialGrid(), White) && moves == []
    {
      pieces := new Piece[SIZE, SIZE];
      turn := White;
      moves := [];
      cells := EmptyGrid();
      new;
      Init();
    }

    /** A board holding the position of `model`, with no move history. */
    constructor CopyOf(model: Board)
      requires model.Valid()
      ensures Valid() && fresh(pieces)
      ensures State() == model.State() && moves == []
    {
      pieces := new Piece[SIZE, SIZE];
      turn := White;
      moves := [];
      cells := EmptyGrid();
      new;
      Copy(model);
    }

    /** Clears the board to the starting position: the four pieces of each
        side on their home squares, every other cell empty, White to move
        and no history. */
    method Init()
      modifies this
      ensures Valid() && fresh(pieces)
      ensures State() == Position(InitialGrid(), White) && moves == []
    {
      var a := new Piece[SIZE, SIZE];
      for i := 0 to SIZE
        invariant forall c, r | 0 <= c < i && 0 <= r < SIZE :: a[c, r] == Empty
      {
        for j := 0 to SIZE
          invariant forall c, r | 0 <= c < i && 0 <= r < SIZE :: a[c, r] == Empty
          invariant forall r | 0 <= r < j :: a[i, r] == Empty
        {
          a[i, j] := Empty;
        }
      }
      turn := White;
      pieces := a;
      cells := EmptyGrid();
      Put(Black, Coord(0, 6));
      Put(Black, Coord(3, 9));
      Put(Black, Coord(6, 9));
      Put(Black, Coord(9, 6));
      Put(White, Coord(0, 3));
      Put(White, Coord(3, 0));
      Put(White, Coord(6, 0));
      Put(White, Coord(9, 3));
      moves := [];
    }

    /** Copies the position of `model` into this board with an empty
        history; copying a board onto itself changes nothing. */
    method Copy(model: Board)
      requires model.Valid()
      modifies this
      ensures Valid()
      ensures State() == old(model.State())
      ensures model == this ==> moves == old(moves) && pieces == old(pieces)
      ensures model != this ==> moves == [] && fresh(pieces)
    {
      if model == this {
        return;
      }
      var a := new Piece[SIZE, SIZE];
      for i := 0 to SIZE
        invariant forall c, r | 0 <= c < i && 0 <= r < SIZE :: a[c, r] == model.pieces[c, r]
      {
        for j := 0 to SIZE
          invariant forall c, r | 0 <= c < i && 0 <= r < SIZE :: a[c, r] == model.pieces[c, r]
          invariant forall r | 0 <= r < j :: a[i, r] == model.pieces[i, r]
        {
          a[i, j] := model.pieces[i, j];
        }
      }
      turn := model.turn;
      pieces := a;
      cells := model.cells;
      moves := [];
    }

    /** Whether from-to is an unblocked queen move: the squares from `from`
        towards `to`, `to` included, are scanned one step at a time and each
        must be empty or be `asEmpty`. A `to` that is off the board (None) is
        never an unblocked move. */
    method IsUnblockedMove(from: Square, to: Option<Square>, asEmpty: Option<Square>) returns (r: bool)
      requires Valid()
      ensures r <==> to.Some? && Unblocked(cells, from, to.value, asEmpty)
    {
      if to.None? || !IsQueenMove(from, to.value) {
        return false;
      }
      var t := to.value;
      var dir := Direction(from, t);
      ghost var dist := Distance(from, t);
      QueenMoveReaches(from, t);
      var newfrom: Option<Square> := None;
      var steps := 1;
      while newfrom != Some(t)
        invariant 1 <= steps <= dist + 1
        invariant newfrom == Some(t) <==> steps == dist + 1
        invariant ClearUpTo(cells, from, dir, steps - 1, asEmpty)
        decreases dist + 1 - steps
      {
        newfrom := QueenMove(from, dir, steps);
        StepGeometry(from, dir, steps);
        var s := newfrom.value;
        if Get(s) != Empty && newfrom != asEmpty {
          assert !ClearAt(cells, from, dir, steps, asEmpty);
          return false;
        }
        steps := steps + 1;
      }
      return true;
    }

    /** Whether `from` holds a piece of the side to move. */
    method IsLegalFrom(from: Square) returns (r: bool)
      requires Valid()
      ensures r <==> LegalFrom(State(), from)
    {
      r := Get(from) == turn;
    }

    /** Whether from-to is a legal first part of a move. */
    method IsLegalTo(from: Square, to: Square) returns (r: bool)
      requires Valid()
      ensures r <==> LegalTo(State(), from, to)
    {
      r := IsLegalFrom(from);
      if r {
        r := IsUnblockedMove(from, Some(to), None);
      }
    }

    /** Whether from-to(spear) is a legal move: the spear flies from `to`
        with `from` treated as empty. */
    method IsLegal(from: Square, to: Square, spear: Square) returns (r: bool)
      requires Valid()
      ensures r <==> Legal(State(), from, to, spear)
    {
      r := IsLegalTo(from, to);
      if r {
        r := IsUnblockedMove(to, Some(spear), Some(from));
      }
    }

    /** Whether `move` is a legal move; no move (None) is not legal. */
    method IsLegalMove(move: Option<Move>) returns (r: bool)
      requires Valid()
      ensures r <==> move.Some? && LegalMove(State(), move.value)
    {
      if move.None? {
        return false;
      }
      r := IsLegal(move.value.from, move.value.to, move.value.spear);
    }

    /** Makes `move` if it is legal: the piece goes to `to`, `from` is
        cleared, the spear lands, the other side moves and the move is
        pushed. An illegal move changes nothing. */
    method MakeMove(move: Move)
      requires Valid()
      modifies this, pieces
      ensures Valid() && pieces == old(pieces)
      ensures old(LegalMove(State(), move)) ==>
        State() == ApplyMove(old(State()), move) && moves == old(moves) + [move]
      ensures !old(LegalMove(State(), move)) ==>
        State() == old(State()) && moves == old(moves)
    {
      var legal := IsLegal(move.from, move.to, move.spear);
      if legal {
        Put(Get(move.from), move.to);
        Put(Empty, move.from);
        Put(Spear, move.spear);
        turn := turn.Opponent();
        moves := moves + [move];
      }
    }

    /** Takes back the last move: the spear square is cleared first, then the
        piece returns from `to` to `from`; the other side moves again. The
        history must not be empty. */
    method Undo()
      requires Valid() && |moves| > 0
      modifies this, pieces
      ensures Valid() && pieces == old(pieces)
      ensures moves == old(moves)[..|old(moves)| - 1]
      ensures State() == Position(UndoGrid(old(cells), old(moves)[|old(moves)| - 1]), old(turn).Opponent())
    {
      var a := moves[|moves| - 1];
      moves := moves[..|moves| - 1];
      Put(Empty, a.spear);
      Put(Get(a.to), a.from);
      Put(Empty, a.to);
      turn := turn.Opponent();
    }

    /** The scan `s` advanced to the next square an unblocked move reaches:
        one step further along the current direction, else the first step
        of the next direction that has an unblocked one; from a scan not
        yet advanced, the first such square. */
    method Advance(s: Scan) returns (t: Scan)
      requires Valid() && s.Valid(cells) && s.dir != 8
      ensures t.Ready(cells) && t.from == s.from && t.asEmpty == s.asEmpty
      ensures s.dir == -1 ==> t.Remaining(cells) == s.Remaining(cells)
      ensures s.dir != -1 ==> s.Remaining(cells) == [QueenMove(s.from, s.dir, s.steps).value] + t.Remaining(cells)
    {
      var d, k;
      if s.dir == -1 && s.steps == 0 {
        d, k := 0, 1;
        PendingStart(cells, s.from, s.asEmpty);
      } else {
        PendingAdvance(cells, s.from, s.dir, s.steps, s.asEmpty);
        d, k := s.dir, s.steps + 1;
      }
      var d', k' := Skip(s.from, s.asEmpty, d, k);
      t := s.(dir := d', steps := k');
    }

    /** From the k-th square in direction d on, the first square, in
        enumeration order, that an unblocked move from `from` reaches: the
        (d', k') returned is on such a square, or d' is 8 when none is left.
        Squares skipped over are not reachable, so what remains to
        enumerate is the same from (d, k) and from (d', k'). */
    method Skip(from: Square, asEmpty: Option<Square>, d: int, k: int) returns (d': int, k': int)
      requires Valid()
      requires 0 <= d < 8 && 1 <= k && ClearUpTo(cells, from, d, k - 1, asEmpty)
      ensures d' == 8 || (0 <= d' < 8 && 1 <= k' &&
        ClearUpTo(cells, from, d', k', asEmpty) && ClearAt(cells, from, d', k', asEmpty))
      ensures Pending(cells, from, d, k, asEmpty) == Pending(cells, from, d', k', asEmpty)
    {
      d', k' := d, k;
      var nextmove := QueenMove(from, d', k');
      var unblocked := IsUnblockedMove(from, nextmove, asEmpty);
      RayStep(cells, from, d', k', asEmpty);
      while !unblocked
        invariant 0 <= d' < 8 && 1 <= k'
        invariant nextmove == QueenMove(from, d', k')
        invariant ClearUpTo(cells, from, d', k' - 1, asEmpty)
        invariant unblocked <==> ClearAt(cells, from, d', k', asEmpty)
        invariant unblocked ==> ClearUpTo(cells, from, d', k', asEmpty)
        invariant Pending(cells, from, d, k, asEmpty) == Pending(cells, from, d', k', asEmpty)
        decreases 8 - d'
      {
        PendingSkip(cells, from, d', k', asEmpty);
        d' := d' + 1;
        if d' == 8 {
          return;
        }
        k' := 1;
        nextmove := QueenMove(from, d', k');
        unblocked := IsUnblockedMove(from, nextmove, asEmpty);
        RayStep(cells, from, d', k', asEmpty);
      }
    }

    /** A scan of the squares reachable from `from`, advanced to the first. */
    method ScanFrom(from: Square, asEmpty: Option<Square>) returns (s: Scan)
      requires Valid()
      ensures s.Ready(cells) && s.from == from && s.asEmpty == asEmpty
      ensures s.Remaining(cells) == Reachable(cells, from, asEmpty)
    {
      s := Advance(Scan(from, asEmpty, -1, 0));
    }

    /** The next square of scan `s` and the scan after it; None, and `s`
        unchanged, when none remains. */
    method NextOf(s: Scan) returns (sq: Option<Square>, t: Scan)
      requires Valid() && s.Ready(cells)
      ensures t.Ready(cells) && t.from == s.from && t.asEmpty == s.asEmpty
      ensures s.Remaining(cells) == [] ==> sq == None && t.Remaining(cells) == []
      ensures s.Remaining(cells) != [] ==> sq.Some? && s.Remaining(cells) == [sq.value] + t.Remaining(cells)
      ensures sq.Some? ==> Unblocked(cells, s.from, sq.value, s.asEmpty)
    {
      if s.HasNext() {
        sq := QueenMove(s.from, s.dir, s.steps);
        UnblockedAlongRay(cells, s.from, s.dir, s.steps, s.asEmpty);
        t := Advance(s);
      } else {
        sq, t := None, s;
      }
    }

    /** A cursor over the squares reachable from `from` by an unblocked
        queen move, treating `asEmpty` as empty. */
    method ReachableFrom(from: Square, asEmpty: Option<Square>) returns (it: ReachableFromIterator)
      requires Valid()
      ensures fresh(it) && it.board == this && it.grid == cells
      ensures it.Ready() && it.Remaining() == Reachable(cells, from, asEmpty)
    {
      it := new ReachableFromIterator(this, from, asEmpty);
    }

    /** A cursor over the legal moves of the side to move. */
    method LegalMovesOfTurn() returns (it: LegalMoveIterator)
      requires Valid()
      ensures fresh(it) && it.board == this && it.grid == cells
      ensures it.Valid() && it.rest == LegalMoves(cells, turn)
    {
      it := new LegalMoveIterator(this, turn);
    }

    /** A cursor over the legal moves of `side`, whoever is to move. */
    method LegalMovesOf(side: Piece) returns (it: LegalMoveIterator)
      requires Valid()
      ensures fresh(it) && it.board == this && it.grid == cells
      ensures it.Valid() && it.rest == LegalMoves(cells, side)
    {
      it := new LegalMoveIterator(this, side);
    }

    /** None while the side to move has a legal move; otherwise the other
        side, which has won. */
    method Winner() returns (w: Option<Piece>)
      requires Valid()
      ensures w == Rules.Winner(State())
    {
      var it := LegalMovesOf(turn);
      if !it.HasNext() {
        w := Some(turn.Opponent());
      } else {
        w := None;
      }
    }
  }

  /** The state of a scan over the squares reachable from `from` by an
      unblocked queen move, treating `asEmpty` as empty: the direction being
      scanned (-1 before the first advance, 8 once done) and the distance,
      along it, of the next square to return. Directions come in ascending
      order, nearest square first, and a direction is abandoned at its first
      blocked or off-board square. */
  datatype Scan = Scan(from: Square, asEmpty: Option<Square>, dir: int, steps: int) {

    /** Not yet advanced, done, or resting on a clear square of a ray whose
        nearer squares are all clear. */
    ghost predicate Valid(g: Grid) {
      (dir == -1 && steps == 0) || dir == 8 ||
      (0 <= dir < 8 && 1 <= steps && ClearUpTo(g, from, dir, steps, asEmpty) &&
       ClearAt(g, from, dir, steps, asEmpty))
    }

    /** Advanced at least once: the state a cursor's users see. */
    ghost predicate Ready(g: Grid) {
      Valid(g) && dir != -1
    }

    /** The squares still to be returned on contents g, in order. */
    ghost function Remaining(g: Grid): seq<Square>
      requires Valid(g)
    {
      if dir == -1 then Reachable(g, from, asEmpty) else Pending(g, from, dir, steps, asEmpty)
    }

    /** Whether a square remains. */
    predicate HasNext() {
      dir < 8
    }
  }

  /** A scan with nothing to return. */
  const NoSquares := Scan(Coord(0, 0), None, 8, 0)

  /** A scan that is ready has a next square exactly when squares remain. */
  lemma HasNextIff(g: Grid, s: Scan)
    requires s.Ready(g)
    ensures s.HasNext() <==> s.Remaining(g) != []
  {
    if s.HasNext() {
      PendingAdvance(g, s.from, s.dir, s.steps, s.asEmpty);
    }
  }

  /** A cursor over the squares reachable from a square of `board`: a scan
      of the contents the board had when the cursor was made (`grid`); the
      cursor may be used only while the board holds those contents again. */
  class ReachableFromIterator {
    const board: Board
    ghost const grid: Grid
    var scan: Scan

    /** Advanced at least once. */
    ghost predicate Ready()
      reads this
    {
      scan.Ready(grid)
    }

    /** The board holds the contents the cursor enumerates. */
    ghost predicate Current()
      reads board, board.pieces
    {
      board.Valid() && board.cells == grid
    }

    /** The squares still to be returned, in order. */
    ghost function Remaining(): seq<Square>
      reads this
      requires Ready()
    {
      scan.Remaining(grid)
    }

    /** The squares reachable from `from`, treating `asEmpty` as empty. */
    constructor (board: Board, from: Square, asEmpty: Option<Square>)
      requires board.Valid()
      ensures this.board == board && grid == board.cells
      ensures Ready() && Remaining() == Reachable(grid, from, asEmpty)
    {
      this.board := board;
      grid := board.cells;
      scan := Scan(from, asEmpty, -1, 0);
      new;
      ToNext();
    }

    /** Whether a square remains. */
    predicate HasNext()
      reads this
      requires Ready()
      ensures HasNext() <==> Remaining() != []
    {
      HasNextIff(grid, scan);
      scan.HasNext()
    }

    /** The next square, or None when none remains. */
    method Next() returns (s: Option<Square>)
      requires Ready() && Current()
      modifies this
      ensures Ready()
      ensures old(Remaining()) == [] ==> s == None && Remaining() == []
      ensures old(Remaining()) != [] ==> s.Some? && old(Remaining()) == [s.value] + Remaining()
      ensures s.Some? ==> Unblocked(grid, scan.from, s.value, scan.asEmpty)
    {
      HasNextIff(grid, scan);
      if scan.HasNext() {
        s := QueenMove(scan.from, scan.dir, scan.steps);
        UnblockedAlongRay(grid, scan.from, scan.dir, scan.steps, scan.asEmpty);
        ToNext();
      } else {
        s := None;
      }
    }

    /** Moves to the next reachable square: from a fresh cursor to the
        first, from a cursor resting on a square past that square. */
    method ToNext()
      requires scan.Valid(grid) && scan.dir != 8 && Current()
      modifies this
      ensures Ready() && scan.from == old(scan.from) && scan.asEmpty == old(scan.asEmpty)
      ensures old(scan.dir) == -1 ==> Remaining() == old(scan.Remaining(grid))
      ensures old(scan.dir) != -1 ==>
        old(scan.Remaining(grid)) == [QueenMove(old(scan.from), old(scan.dir), old(scan.steps)).value] + Remaining()
    {
      scan := board.Advance(scan);
    }
  }

  /** The position of a legal-move cursor: the starting squares not yet
      considered, the current starting square and destination, and scans of
      what remains of the destinations of `start` and of the throws from
      `next`. */
  datatype Cursor = Cursor(starts: seq<Square>, start: Square, next: Square, pieceMoves: Scan, spearThrows: Scan) {

    /** The moves still to be returned on contents g, for `side`: the rest of
        the throws, then the moves to the remaining destinations, then the
        moves from the remaining starting squares. */
    ghost function Rest(g: Grid, side: Piece): seq<Move>
      requires pieceMoves.Valid(g) && spearThrows.Valid(g)
    {
      SpearMoves(start, next, spearThrows.Remaining(g)) +
        (PieceMoves(g, start, pieceMoves.Remaining(g)) + MovesFrom(g, side, starts))
    }

    ghost predicate Sound(g: Grid) {
      pieceMoves.Ready(g) && spearThrows.Ready(g) && pieceMoves.from == start && pieceMoves.asEmpty == None
    }

    /** Sound, and the throws run out only once every move has been returned. */
    ghost predicate Valid(g: Grid, side: Piece) {
      Sound(g) &&
      (spearThrows.Remaining(g) == [] ==> pieceMoves.Remaining(g) == [] && MovesFrom(g, side, starts) == [])
    }
  }

  /** A valid cursor has throws left exactly when it has moves left. */
  lemma CursorNonEmpty(g: Grid, side: Piece, c: Cursor)
    requires c.Valid(g, side)
    ensures c.Rest(g, side) != [] <==> c.spearThrows.Remaining(g) != []
  {
  }

  /** Returning the next throw: the move it makes comes first. */
  lemma ThrowStep(g: Grid, side: Piece, c: Cursor, spear: Square, st': Scan)
    requires c.Sound(g)
    requires st'.Ready(g) && c.spearThrows.Remaining(g) == [spear] + st'.Remaining(g)
    ensures c.(spearThrows := st').Sound(g)
    ensures c.Rest(g, side) == [Move(c.start, c.next, spear)] + c.(spearThrows := st').Rest(g, side)
  {
    SpearMovesHead(c.start, c.next, spear, st'.Remaining(g),
      PieceMoves(g, c.start, c.pieceMoves.Remaining(g)) + MovesFrom(g, side, c.starts));
  }

  /** Taking the next destination `to` of the current piece once its throws
      have run out: the throws from `to` follow, and there is one at least. */
  lemma DestinationStep(g: Grid, side: Piece, c: Cursor, to: Square, pm': Scan, st': Scan)
    requires c.Sound(g) && c.spearThrows.Remaining(g) == []
    requires pm'.Ready(g) && pm'.from == c.start && pm'.asEmpty == None
    requires c.pieceMoves.Remaining(g) == [to] + pm'.Remaining(g) && Unblocked(g, c.start, to, None)
    requires st'.Ready(g) && st'.Remaining(g) == Reachable(g, to, Some(c.start))
    ensures c.(next := to, pieceMoves := pm', spearThrows := st').Valid(g, side)
    ensures c.(next := to, pieceMoves := pm', spearThrows := st').Rest(g, side) == c.Rest(g, side)
  {
    PieceMovesHead(g, c.start, to, pm'.Remaining(g), MovesFrom(g, side, c.starts));
    SpearTarget(g, c.start, to);
  }

  /** Passing over a starting square that does not hold a piece of the side. */
  lemma SkipStart(g: Grid, side: Piece, c: Cursor)
    requires c.starts != [] && At(g, c.starts[0]) != side
    requires c.pieceMoves.Valid(g) && c.spearThrows.Valid(g)
    ensures c.(starts := c.starts[1..]).Rest(g, side) == c.Rest(g, side)
  {
    MovesFromHead(g, side, c.starts[0], c.starts[1..]);
    assert [c.starts[0]] + c.starts[1..] == c.starts;
  }

  /** Taking a starting square that holds a piece of the side, with the
      scan `pm'` of the squares it reaches, once the current piece is done. */
  lemma TakeStart(g: Grid, side: Piece, c: Cursor, pm': Scan)
    requires c.Sound(g) && c.starts != [] && At(g, c.starts[0]) == side
    requires c.pieceMoves.Remaining(g) == [] && c.spearThrows.Remaining(g) == []
    requires pm'.Ready(g) && pm'.from == c.starts[0] && pm'.asEmpty == None
    requires pm'.Remaining(g) == Reachable(g, c.starts[0], None)
    ensures var c' := c.(starts := c.starts[1..], start := c.starts[0], pieceMoves := pm');
      c'.Sound(g) && c'.Rest(g, side) == c.Rest(g, side)
  {
    MovesFromHead(g, side, c.starts[0], c.starts[1..]);
    assert [c.starts[0]] + c.starts[1..] == c.starts;
  }

  /** A cursor over the legal moves of `fromPiece` on `board`: for each
      starting square in square order that holds a piece of that side, for
      each square the piece reaches, every spear throw from there with the
      starting square treated as empty. Like ReachableFromIterator it
      enumerates the contents the board had when it was made. */
  class LegalMoveIterator {
    const board: Board
    const fromPiece: Piece
    ghost const grid: Grid
    var cursor: Cursor
    /** The moves still to be returned, in order. */
    ghost var rest: seq<Move>

    ghost predicate Sound()
      reads this
    {
      cursor.Sound(grid) && rest == cursor.Rest(grid, fromPiece)
    }

    ghost predicate Valid()
      reads this
    {
      cursor.Valid(grid, fromPiece) && rest == cursor.Rest(grid, fromPiece)
    }

    /** The board holds the contents the cursor enumerates. */
    ghost predicate Current()
      reads board, board.pieces
    {
      board.Valid() && board.cells == grid
    }

    /** The legal moves of `side` on `board`. */
    constructor (board: Board, side: Piece)
      requires board.Valid()
      ensures this.board == board && fromPiece == side && grid == board.cells
      ensures Valid() && rest == LegalMoves(grid, side)
    {
      this.board := board;
      fromPiece := side;
      grid := board.cells;
      cursor := Cursor(AllSquares(), Coord(0, 0), Coord(0, 0), NoSquares, NoSquares);
      rest := LegalMoves(board.cells, side);
      new;
      ToNext();
    }

    /** Whether a move remains. */
    predicate HasNext()
      reads this
      requires Valid()
      ensures HasNext() <==> rest != []
    {
      HasNextIff(grid, cursor.spearThrows);
      CursorNonEmpty(grid, fromPiece, cursor);
      cursor.spearThrows.HasNext()
    }

    /** The next move, or None when none remains. */
    method Next() returns (m: Option<Move>)
      requires Valid() && Current()
      modifies this
      ensures Valid()
      ensures old(rest) == [] ==> m == None && rest == []
      ensures old(rest) != [] ==> m.Some? && old(rest) == [m.value] + rest
    {
      if HasNext() {
        var spear, st := board.NextOf(cursor.spearThrows);
        ThrowStep(grid, fromPiece, cursor, spear.value, st);
        m := Some(Move(cursor.start, cursor.next, spear.value));
        cursor := cursor.(spearThrows := st);
        rest := cursor.Rest(grid, fromPiece);
        ToNext();
      } else {
        m := None;
      }
    }

    /** Moves to the next legal move: the next spear throw, else the first
        throw from the next square the current piece reaches, else the first
        move of the next starting square holding a piece of the side. */
    method ToNext()
      requires Sound() && Current()
      modifies this
      ensures Valid() && rest == old(rest)
    {
      HasNextIff(grid, cursor.spearThrows);
      if cursor.spearThrows.HasNext() {
        return;
      }
      HasNextIff(grid, cursor.pieceMoves);
      if cursor.pieceMoves.HasNext() {
        NextDestination();
        return;
      }
      while cursor.starts != []
        invariant Sound() && rest == old(rest)
        invariant cursor.pieceMoves.Remaining(grid) == [] && cursor.spearThrows.Remaining(grid) == []
        decreases |cursor.starts|
      {
        var nextstart := cursor.starts[0];
        if board.Get(nextstart) == fromPiece {
          var pm := board.ScanFrom(nextstart, None);
          TakeStart(grid, fromPiece, cursor, pm);
          cursor := cursor.(starts := cursor.starts[1..], start := nextstart, pieceMoves := pm);
          HasNextIff(grid, cursor.pieceMoves);
          if cursor.pieceMoves.HasNext() {
            NextDestination();
            return;
          }
        } else {
          SkipStart(grid, fromPiece, cursor);
          cursor := cursor.(starts := cursor.starts[1..]);
        }
      }
    }

    /** Takes the next square the current piece reaches and starts on the
        spear throws from there, of which there is at least one. */
    method NextDestination()
      requires Sound() && Current()
      requires cursor.spearThrows.Remaining(grid) == [] && cursor.pieceMoves.Remaining(grid) != []
      modifies this
      ensures Valid() && rest == old(rest)
    {
      var to, pm := board.NextOf(cursor.pieceMoves);
      var st := board.ScanFrom(to.value, Some(cursor.start));
      DestinationStep(grid, fromPiece, cursor, to.value, pm, st);
      cursor := cursor.(next := to.value, pieceMoves := pm, spearThrows := st);
    }
  }
}
