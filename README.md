# Amazons board and automatic player, modelled in Dafny

This project models the rules engine and the automatic player of a Game of
the Amazons program. The board is a 10x10 grid. Each side has four queens.
A move takes a queen along an unblocked queen line, then throws a spear
from the landing square along another unblocked line. A side that cannot
move loses.

The model has four modules:

- `Geometry` (`geometry.dfy`) stands in for the game's `Square`, `Move`
  and `Piece` types, which this model does not include. A square is a
  column and row in [0, 10). There are eight queen directions, and a queen
  step goes off the board as `None`. A fixed enumeration lists all 100
  squares. The direction numbering and square order chosen here are one
  arbitrary choice. Every statement about enumeration order, and which
  move the search picks among equally good ones, is relative to that
  choice, and a few proofs use the concrete choice: the square-index
  formula behind `Geometry.AllSquaresComplete`, and the numbers of the two
  column directions in the proof of `Rules.InitialNotOver`.
- `Rules` (`rules.dfy`) states the rules on board contents taken as
  values:
  - unblocked queen moves;
  - the three layers of legality;
  - the effect of making and of taking back a move;
  - the squares reachable from a square, and the legal moves of a side, as
    sequences in exactly the order the board's iterators produce them;
  - the winner and the starting position.
- `Boards` (`boards.dfy`) is the mutable `Board` class, which holds:
  - an `array2` of cells;
  - the side to move;
  - the stack of moves made, as a `seq`.

  It also has the two cursor classes `ReachableFromIterator` and
  `LegalMoveIterator`. Every method is proved against `Rules`.
- `Search` (`search.dfy`) is the `AI` class, with the mutable
  `lastFoundMove`. It holds the recursive `findMove` and its loop,
  `staticScore` and `maxDepth`. The value of every search is proved equal
  to a minimax value defined on positions (`Minimax`), and the recorded
  move is proved to be the first legal move in enumeration order that
  reaches the value at the root.

The search's loop never breaks, so the alpha and beta bounds it narrows
never cut it short. The value it returns is therefore plain minimax,
whatever window it is given. The comment at amazons/AI.java:58-63 speaks
of the ALPHA/BETA window as bounds on the value sought, but the code prunes
nothing, and the model follows the code.

## Model

| member | source | states |
|---|---|---|
| Boards.Board.constructor | amazons/Board.java:19-21 | a new board holds the starting position, White to move, with no history |
| Boards.Board.CopyOf | amazons/Board.java:24-26 | a board built from a model holds the model's cells and side to move, with an empty history |
| Boards.Board.Copy | amazons/Board.java:29-42 | the position of the model is copied cell for cell with an empty history; copying a board onto itself leaves cells, side to move and history unchanged |
| Boards.Board.Init | amazons/Board.java:45-63 | the board is reset to the starting grid, White to move, with an empty history |
| Rules.InitialCells | amazons/Board.java:54-61 | in the starting grid exactly (0,6), (3,9), (6,9), (9,6) hold Black and exactly (0,3), (3,0), (6,0), (9,3) hold White; every other square is empty and no square holds a spear |
| Rules.InitialNotOver | amazons/Board.java:45-63 | in the starting position both sides have a legal move, so there is no winner |
| Boards.Board.Turn | amazons/Board.java:66-68 | the side to move is always White or Black |
| Boards.Board.NumMoves | amazons/Board.java:72-74 | the count is the length of the stack of moves made and not undone |
| Boards.Board.Get | amazons/Board.java:88-90 | the contents of a square are that square's entry in the board's contents |
| Boards.Board.Put | amazons/Board.java:104-106 | the square is set to the piece, no other cell changes, and the array still mirrors the contents |
| Boards.Board.IsUnblockedMove | amazons/Board.java:123-138 | true iff the target is on the board, the two squares are queen-aligned and distinct, and every square from step 1 to the target is empty or is the square treated as empty |
| Rules.UnblockedAlongRay | amazons/Board.java:129-135 | along one direction, the move to the k-th square is unblocked iff the first k squares are clear |
| Boards.Board.IsLegalFrom | amazons/Board.java:141-143 | true iff the square holds a piece of the side to move |
| Boards.Board.IsLegalTo | amazons/Board.java:147-149 | true iff the start holds a piece of the side to move and start-to-destination is unblocked with no square treated as empty |
| Boards.Board.IsLegal | amazons/Board.java:153-155 | true iff the first part is legal and the throw from the destination is unblocked with the start treated as empty |
| Boards.Board.IsLegalMove | amazons/Board.java:159-161 | no move (null) is illegal; otherwise true iff its three squares form a legal move |
| Rules.LegalMoveShape | amazons/Board.java:151-155 | a legal move starts on the mover's piece and lands on an empty square different from the start; the spear lands on an empty square or on the start, never on the destination |
| Boards.Board.MakeMove | amazons/Board.java:169-177 | a legal move changes the position to the one the move leads to, passes the turn and pushes the move; an illegal move changes nothing |
| Rules.ApplyEffect | amazons/Board.java:170-174 | after a legal move the destination holds the mover's piece and the spear square holds a spear; the start is empty unless the spear landed there; no other square changes |
| Boards.Board.Undo | amazons/Board.java:180-186 | with a non-empty history, the last move is popped, the spear square cleared, the piece returned to its start, the destination cleared and the turn passed back |
| Rules.UndoAfterApply | amazons/Board.java:180-186 | taking back a legal move restores the grid exactly, also when the spear was thrown back to the start |
| Boards.Board.ReachableFrom | amazons/Board.java:195-197 | the cursor returned enumerates exactly the reachable-square sequence for the current contents |
| Rules.ReachableIff | amazons/Board.java:188-197 | a square is enumerated iff there is an unblocked queen move to it |
| Rules.ReachableOrdered | amazons/Board.java:240-256 | squares come direction by direction in ascending order, nearest first within a direction, so none repeats |
| Rules.RayStep | amazons/Board.java:247-255 | once the first k-1 squares of a direction are clear, the move to the k-th is unblocked iff that square is on the board and clear; a blocked or off-board square ends the direction |
| Boards.HasNextIff | amazons/Board.java:224-226 | a scan that is advanced has a next square iff squares remain |
| Boards.Board.Advance | amazons/Board.java:240-256 | advancing a fresh scan reaches the first reachable square; advancing a scan resting on a square drops exactly that square from what remains |
| Boards.Board.Skip | amazons/Board.java:247-255 | the scan stops on the first reachable square, or on direction 8 when none is left, and the skipped squares are not reachable |
| Boards.Board.ScanFrom | amazons/Board.java:215-221 | a new scan is advanced and has every reachable square still to return |
| Boards.Board.NextOf | amazons/Board.java:229-236 | the next square is the head of what remains and the rest remains; None once nothing remains; every square returned is reachable |
| Boards.ReachableFromIterator.constructor | amazons/Board.java:215-221 | a new cursor is advanced and has every reachable square still to return |
| Boards.ReachableFromIterator.HasNext | amazons/Board.java:224-226 | true iff squares remain |
| Boards.ReachableFromIterator.Next | amazons/Board.java:229-236 | returns the square the cursor rests on, the head of what remains, then advances the cursor past it; returns None once nothing remains; every square returned is reachable |
| Boards.ReachableFromIterator.ToNext | amazons/Board.java:240-256 | from a fresh cursor, advances to the first square with the whole enumeration remaining; from a cursor resting on a square, drops exactly that square from what remains; the start and the square treated as empty are kept |
| Boards.Board.LegalMovesOfTurn | amazons/Board.java:200-202 | the cursor returned enumerates exactly the legal-move sequence of the side to move |
| Boards.Board.LegalMovesOf | amazons/Board.java:206-208 | the cursor returned enumerates exactly the legal-move sequence of the given side, whoever is to move |
| Rules.LegalMovesIff | amazons/Board.java:298-319 | a move is enumerated for a side iff it is legal for that side |
| Rules.MovesFromDistinct | amazons/Board.java:298-319 | the enumeration repeats no move |
| Rules.MobilityCount | amazons/Board.java:298-319 | the enumeration's length is the number of distinct legal moves |
| Rules.SpearTarget | amazons/Board.java:302-305 | after an unblocked first part, the throw always has a target, the square one step back towards the start |
| Boards.CursorNonEmpty | amazons/Board.java:281-283 | a valid cursor has throws left iff it has moves left |
| Boards.ThrowStep | amazons/Board.java:286-290 | returning a throw removes exactly the move start-destination(throw) from the front of what remains |
| Boards.DestinationStep | amazons/Board.java:302-305 | taking the next destination keeps what remains and leaves at least one throw |
| Boards.SkipStart | amazons/Board.java:307-309 | passing over a starting square that does not hold the side's piece keeps what remains |
| Boards.TakeStart | amazons/Board.java:309-311 | taking a starting square that holds the side's piece, with the scan of the squares it reaches, keeps what remains |
| Boards.LegalMoveIterator.constructor | amazons/Board.java:272-278 | a new cursor has every legal move of the side still to return |
| Boards.LegalMoveIterator.HasNext | amazons/Board.java:281-283 | true iff moves remain |
| Boards.LegalMoveIterator.Next | amazons/Board.java:286-293 | returns the head of what remains and keeps the rest; returns None once nothing remains |
| Boards.LegalMoveIterator.ToNext | amazons/Board.java:298-319 | the cursor moves to a state where throws remain unless no move remains, without changing what remains |
| Boards.LegalMoveIterator.NextDestination | amazons/Board.java:302-305 | taking the next destination leaves at least one throw and does not change what remains |
| Boards.Board.Winner | amazons/Board.java:78-85 | None while the side to move has a legal move, otherwise the other side |
| Rules.WinnerIff | amazons/Board.java:78-85 | there is no winner iff some move is legal for the side to move; otherwise the winner is the other side |
| Search.MaxDepth | amazons/AI.java:105-112 | the depth is at least 1, and it is 1 iff fewer than 40 moves have been made |
| Search.MaxDepthMonotone | amazons/AI.java:105-112 | the depth never decreases as moves are made |
| Search.MaxDepthThreshold | amazons/AI.java:105-112 | 39 moves give depth 1 and 40 give depth 2 |
| Search.ScoreBounds | amazons/AI.java:115-135 | a win scores exactly plus or minus WINNING_VALUE; otherwise the score is White's number of legal moves less Black's, strictly inside those bounds |
| Rules.MobilityBound | amazons/AI.java:122-134 | a side has at most 518400 legal moves, so the mobility difference cannot reach a win value |
| Search.AI.StaticScore | amazons/AI.java:115-135 | the score computed is the static value of the board's position |
| Search.AI.CountMoves | amazons/AI.java:122-127 | the count is the number of legal moves of the side |
| Search.FirstBestIsFirst | amazons/AI.java:76-82 | the recorded index holds a value no other value beats, and that value strictly beats every value before it |
| Search.BestIsFirstBest | amazons/AI.java:72-78 | folding 32-bit values with max (min) from Integer.MIN_VALUE (MAX_VALUE) gives the start value for no moves, otherwise the first best value |
| Search.MinimaxBounds | amazons/AI.java:11-15 | every minimax value lies between -WINNING_VALUE and WINNING_VALUE |
| Search.MinimaxIsBest | amazons/AI.java:70-100 | no legal move leads to a value better for the side to move than the minimax value, and some legal move reaches it exactly |
| Search.ChildValue | amazons/AI.java:76-82 | the value after the i-th legal move is no better than the minimax value, and equals it at the first best move |
| Search.SearchStep | amazons/AI.java:76-82 | one turn of the loop keeps the running value the best so far and the bound between its start and the running value; with the widest window a move is recorded iff it is the new first best |
| Search.ValuesSnoc | amazons/AI.java:73-83 | exploring one more move appends that move's value to the values seen |
| Search.TakeNext | amazons/AI.java:73-74 | taking the next move off those still to explore keeps the moves in order, and the move taken is one of them |
| Search.ExploredStep | amazons/AI.java:73-83 | a turn of the loop keeps the loop invariant: best value so far, bound within the window, recorded move among those explored and first best with the widest window |
| Search.ExploredAll | amazons/AI.java:84 | after every legal move the running value is the minimax value and any recorded move is legal |
| Search.AI.constructor | amazons/AI.java:26-28 | a new player plays the given side and has recorded no move |
| Search.AI.FindMove | amazons/AI.java:44-52 | the search runs on a copy, so the game board is untouched, and is one level deep; the move returned is the first legal move reaching the best value, or the previous move if the game is over |
| Search.AI.FindMoveFrom | amazons/AI.java:64-101 | the board ends as it began; the value is the minimax value; at depth 0 or with a winner, and whenever moves are not saved, the recorded move is left alone; a recorded move is legal, and with the widest window it is the first best legal move |
| Search.AI.SearchMoves | amazons/AI.java:70-100 | every legal move is explored in order, the board is restored, and the loop ends with all legal moves explored |
| Search.AI.Step | amazons/AI.java:73-83 | one turn of the loop takes the next legal move, explores it, and keeps the moves still to explore in order |
| Search.AI.ExploreMove | amazons/AI.java:76-82 | the bound becomes the better of itself and the running value (alpha = max for White, beta = min for Black), the running value takes in the move's minimax value, and the move is recorded exactly when saveMove holds and the new running value strictly beats the bound (value > alpha, resp. value < beta), otherwise the recorded move is unchanged; the loop invariant is kept |
| Search.AI.Explore | amazons/AI.java:75-79 | the move is made, searched one level less deep for the other side without recording, and taken back; the board ends as it began and the value is the child's minimax value |

## Left out

- `Board.toString` is not modelled because it is text display only.
- The `get(int, int)`, `get(char, char)`, `put(Piece, int, int)` and `put(Piece, char, char)` overloads are not modelled. They only convert coordinates or notation into a square and then do what `Get` and `Put` do.
- The `makeMove(Square, Square, Square)` overload is not modelled because it only builds a `Move`.
- `AI.myMove`, the no-argument `AI` constructor, `create` and the `Player`/`Controller` plumbing are not part of this model. Reporting a move is I/O.
- The `_winner` cache field is not part of this model. It is written but never read for any decision.
- `Square`, `Move` and `Piece` are not part of this model; `Geometry` stands in for them.
  - Java's `null` is modelled as `None`.
  - The source compares squares by reference, which relies on interned squares; the model compares them by value.
- The two iterators do not read the live board. Each enumerates the contents the board had when the cursor was made (its ghost `grid`).
  - Each operation requires that the board hold those contents again.
  - The search meets that requirement because every move it makes is taken back before the next `Next`.
- The iterators' nested cursors are held by value, in a `Scan` for a reachable-square cursor and in a `Cursor` for the legal-move cursor, not as iterator objects. `NO_SQUARES` is the exhausted scan `NoSquares`.
- The laziness and cost of the iterators are not modelled.
- `Boards.Board.Skip`, `Boards.Board.Advance`, `Boards.LegalMoveIterator.NextDestination`, `Search.AI.SearchMoves`, `Search.AI.Step`, `Search.AI.ExploreMove`, `Search.AI.Explore` and `Search.AI.CountMoves` are helper methods. They split the source's loops and loop bodies into parts that can be proved separately.
- `Search.AI.ExploreMove` moves the window bound before the move is made, where the source does it after. The bound does not depend on the board, so the result is the same.
- `Search.AI.FindMoveFrom` has one loop, parameterised by the sense, in place of the source's two copies of it for White and Black. The sense chooses the side, the start value and which bound moves.
- `Search.MaxDepth` takes the move count instead of the board.
- `Search.AI.FindMove` requires that the player's side be the side to move. Otherwise the source's `makeMove` does nothing, and `undo` pops an empty stack and throws.
- `Boards.Board.Undo` requires a non-empty history. The source's stack pop throws on an empty one, even though its comment says the initial board is unaffected.
- Java `int` overflow is not modelled because there is none: values are compared, and one bounded difference is taken (`Rules.MobilityBound`). Dafny `int` is used with `INFTY` = 2^31-1, `WINNING_VALUE` = 2^31-2 and `MIN_VALUE` = -2^31.
