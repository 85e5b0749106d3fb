/** The value types the rules engine is written against: pieces, squares of
    the 10x10 board, the eight queen directions and moves. These stand in for
    the game's Piece, Square and Move types. The direction numbering and the
    order of the square enumeration chosen here are one fixed choice: every
    statement about enumeration order, and which of several equally good
    moves the search picks, is relative to it, and a few proofs use the
    concrete choice (the square-index formula below, the column
    directions in the proof that the starting position is not over). */
module Geometry {

  /** The number of squares on a side of the board. */
  const SIZE := 10

  datatype Option<+T> = None | Some(value: T)

  /** The contents of one cell. */
  datatype Piece = Empty | White | Black | Spear {

    /** True of the two playing sides. */
    predicate IsSide() {
      this == White || this == Black
    }

    /** The other side. */
    function Opponent(): (q: Piece)
      requires IsSide()
      ensures q.IsSide() && q != this
    {
      if this == White then Black else White
    }
  }

  datatype Coord = Coord(col: int, row: int)

  /** A square of the board: column and row both in [0, SIZE). */
  type Square = c: Coord | 0 <= c.col < SIZE && 0 <= c.row < SIZE witness Coord(0, 0)

  /** A move: the piece on `from` goes to `to`, then throws a spear to `spear`. */
  datatype Move = Move(from: Square, to: Square, spear: Square)

  /** One of the eight queen directions. */
  type Dir = d: int | 0 <= d < 8

  /** Column and row components of the unit vector of each direction. */
  const DirCol: seq<int> := [0, 1, 1, 1, 0, -1, -1, -1]
  const DirRow: seq<int> := [1, 1, 0, -1, -1, -1, 0, 1]

  function Sign(x: int): int {
    if x > 0 then 1 else if x < 0 then -1 else 0
  }

  function Abs(x: int): nat {
    if x < 0 then -x else x
  }

  /** x moved k units in the direction of the sign of `delta`. */
  function Shift(x: int, delta: int, k: int): int {
    if delta > 0 then x + k else if delta < 0 then x - k else x
  }

  /** The square `steps` squares away from `from` in direction `dir`, or None
      when that is off the board. */
  function QueenMove(from: Square, dir: Dir, steps: int): Option<Square> {
    var c := Coord(Shift(from.col, DirCol[dir], steps), Shift(from.row, DirRow[dir], steps));
    if 0 <= c.col < SIZE && 0 <= c.row < SIZE then Some(c) else None
  }

  /** `from` and `to` are distinct and share a column, a row or a diagonal. */
  predicate IsQueenMove(from: Square, to: Square) {
    from != to &&
    (from.col == to.col || from.row == to.row ||
     Abs(to.col - from.col) == Abs(to.row - from.row))
  }

  /** The number of queen steps from `from` to `to`. */
  function Distance(from: Square, to: Square): nat {
    var dc, dr := Abs(to.col - from.col), Abs(to.row - from.row);
    if dc < dr then dr else dc
  }

  /** The direction whose unit vector is (sc, sr). */
  function DirectionOf(sc: int, sr: int): (d: Dir)
    requires -1 <= sc <= 1 && -1 <= sr <= 1 && (sc != 0 || sr != 0)
    ensures DirCol[d] == sc && DirRow[d] == sr
  {
    if sc == 0 && sr == 1 then 0
    else if sc == 1 && sr == 1 then 1
    else if sc == 1 && sr == 0 then 2
    else if sc == 1 && sr == -1 then 3
    else if sc == 0 && sr == -1 then 4
    else if sc == -1 && sr == -1 then 5
    else if sc == -1 && sr == 0 then 6
    else 7
  }

  /** The direction of the queen move from `from` to `to`. */
  function Direction(from: Square, to: Square): (d: Dir)
    requires IsQueenMove(from, to)
    ensures DirCol[d] == Sign(to.col - from.col) && DirRow[d] == Sign(to.row - from.row)
  {
    DirectionOf(Sign(to.col - from.col), Sign(to.row - from.row))
  }

  /** Every square of the board, each once. */
  function AllSquares(): seq<Square> {
    seq(SIZE * SIZE, i requires 0 <= i < SIZE * SIZE => Coord(i / SIZE, i % SIZE))
  }

  lemma AllSquaresComplete(s: Square)
    ensures s in AllSquares()
  {
    var i := s.col * SIZE + s.row;
    assert AllSquares()[i] == s;
  }

  lemma AllSquaresDistinct()
    ensures forall i, j | 0 <= i < j < |AllSquares()| :: AllSquares()[i] != AllSquares()[j]
  {
  }

  /** A square that QueenMove reaches is as many steps away as were taken, in
      the direction that was taken; no square is more than SIZE - 1 steps away. */
  lemma StepGeometry(from: Square, dir: Dir, k: int)
    requires 1 <= k && QueenMove(from, dir, k).Some?
    ensures var t := QueenMove(from, dir, k).value;
      k < SIZE && IsQueenMove(from, t) && Direction(from, t) == dir && Distance(from, t) == k
  {
  }

  /** Walking Distance(from, to) steps from `from` towards `to` stays on the
      board and ends on `to`. */
  lemma QueenMoveReaches(from: Square, to: Square)
    requires IsQueenMove(from, to)
    ensures forall k | 1 <= k <= Distance(from, to) :: QueenMove(from, Direction(from, to), k).Some?
    ensures QueenMove(from, Direction(from, to), Distance(from, to)) == Some(to)
  {
  }

  /** The square one step back from the k-th square of a ray (that is `from`
      itself when k is 1) is one queen step from it. */
  lemma StepBack(from: Square, dir: Dir, k: int)
    requires 1 <= k && QueenMove(from, dir, k).Some?
    ensures 1 < k ==> QueenMove(from, dir, k - 1).Some?
    ensures var t := QueenMove(from, dir, k).value;
      var b := if k == 1 then from else QueenMove(from, dir, k - 1).value;
      IsQueenMove(t, b) && Distance(t, b) == 1 && QueenMove(t, Direction(t, b), 1) == Some(b)
  {
  }
}
