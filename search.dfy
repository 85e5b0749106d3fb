/** The automatic player's move search: a fixed-depth minimax over the legal
    moves of the board, scoring leaves by mobility. Every value is proved
    equal to a minimax value defined on positions, and the recorded move is
    proved to be the first legal move that reaches it. */
module Search {
  import opened Geometry
  import opened Rules
  import opened Boards

  /** A value magnitude meaning a win: for White when positive, for Black
      when negative (the greatest 32-bit integer less one). */
  const WINNING_VALUE := 2147483646
  /** A magnitude greater than any value (the greatest 32-bit integer). */
  const INFTY := 2147483647
  /** The least 32-bit integer, where a maximising search starts. */
  const MIN_VALUE := -2147483648
  /** The number of moves made after which the search goes one level deeper. */
  const MAX := 40

  function Max(a: int, b: int): int {
    if a >= b then a else b
  }

  function Min(a: int, b: int): int {
    if a <= b then a else b
  }

  /** 1 for White, which maximises values; -1 for Black, which minimises them. */
  function Sense(side: Piece): int {
    if side == White then 1 else -1
  }

  /** Value a is strictly better than value b for the side of `sense`. */
  predicate Improves(sense: int, a: int, b: int) {
    if sense == 1 then a > b else a < b
  }

  /** The value a search of sense `sense` starts from. */
  function Worst(sense: int): int {
    if sense == 1 then MIN_VALUE else INFTY
  }

  // ---------------------------------------------------------------------
  // Static evaluation and search depth

  /** The static value of a position: a win for the side that has won, else
      the number of White's legal moves less the number of Black's. */
  function Score(p: Position): int
    requires p.turn.IsSide()
  {
    var w := Winner(p);
    if w == Some(Black) then -WINNING_VALUE
    else if w == Some(White) then WINNING_VALUE
    else |LegalMoves(p.grid, White)| - |LegalMoves(p.grid, Black)|
  }

  /** A won position scores exactly the win value of its winner, and no
      other position comes near: the mobility difference lies strictly
      between the two win values, and counts distinct legal moves. */
  lemma ScoreBounds(p: Position)
    requires p.turn.IsSide()
    ensures -WINNING_VALUE <= Score(p) <= WINNING_VALUE
    ensures Score(p) == WINNING_VALUE <==> Winner(p) == Some(White)
    ensures Score(p) == -WINNING_VALUE <==> Winner(p) == Some(Black)
    ensures Winner(p) == None ==>
      Score(p) == |LegalSet(p.grid, White)| - |LegalSet(p.grid, Black)|
  {
    MobilityBound(p.grid, White);
    MobilityBound(p.grid, Black);
    MobilityCount(p.grid, White);
    MobilityCount(p.grid, Black);
    WinnerIff(p);
  }

  /** The search depth for a board on which `numMoves` moves have been made:
      one level until MAX moves have been made, then one more level for
      every further MAX moves. */
  function MaxDepth(numMoves: nat): (depth: nat)
    ensures depth >= 1
    ensures depth == 1 <==> numMoves < MAX
  {
    if numMoves < MAX then 1 else 1 + numMoves / MAX
  }

  /** The depth never falls as the game goes on. */
  lemma MaxDepthMonotone(m: nat, n: nat)
    requires m <= n
    ensures MaxDepth(m) <= MaxDepth(n)
  {
  }

  /** The depth first exceeds one at move MAX. */
  lemma MaxDepthThreshold()
    ensures MaxDepth(MAX - 1) == 1 && MaxDepth(MAX) == 2
  {
  }

  // ---------------------------------------------------------------------
  // Minimax on positions

  /** The index of the first best value of vals for `sense`, found left to
      right: a later value replaces the one held when it is strictly better. */
  function FirstBest(sense: int, vals: seq<int>): (i: nat)
    requires vals != []
    ensures i < |vals|
  {
    if |vals| == 1 then 0
    else
      var k := FirstBest(sense, vals[..|vals| - 1]);
      if Improves(sense, vals[|vals| - 1], vals[k]) then |vals| - 1 else k
  }

  /** FirstBest finds the first best value: no value is better than it, and
      it is strictly better than every value before it. */
  lemma {:induction false} FirstBestIsFirst(sense: int, vals: seq<int>)
    requires vals != []
    ensures var i := FirstBest(sense, vals);
      (forall j | 0 <= j < |vals| :: !Improves(sense, vals[j], vals[i])) &&
      (forall j | 0 <= j < i :: Improves(sense, vals[i], vals[j]))
    decreases |vals|
  {
    if |vals| > 1 {
      var init := vals[..|vals| - 1];
      FirstBestIsFirst(sense, init);
      assert forall j | 0 <= j < |init| :: vals[j] == init[j];
    }
  }

  /** Every value fits a 32-bit integer. */
  predicate Int32s(vals: seq<int>) {
    forall i | 0 <= i < |vals| :: MIN_VALUE <= vals[i] <= INFTY
  }

  /** The best value of vals for `sense`, taken left to right from
      Worst(sense) (Math.max and Math.min in turn). */
  function Best(sense: int, vals: seq<int>): int {
    if vals == [] then Worst(sense)
    else
      var b := Best(sense, vals[..|vals| - 1]);
      var v := vals[|vals| - 1];
      if Improves(sense, v, b) then v else b
  }

  /** The best of 32-bit values is Worst(sense) when there are none, else
      the first best value. */
  lemma {:induction false} BestIsFirstBest(sense: int, vals: seq<int>)
    requires Int32s(vals)
    ensures vals == [] ==> Best(sense, vals) == Worst(sense)
    ensures vals != [] ==> Best(sense, vals) == vals[FirstBest(sense, vals)]
    decreases |vals|
  {
    if |vals| > 1 {
      BestIsFirstBest(sense, vals[..|vals| - 1]);
    }
  }

  /** The minimax value of p searched `depth` levels deep: the static score
      at depth 0 or once the game is over, else the best, for the side to
      move, of the values of the positions its legal moves lead to. */
  function Minimax(p: Position, depth: nat): int
    requires p.turn.IsSide()
    decreases depth, 1
  {
    if depth == 0 || Winner(p).Some? then Score(p)
    else Best(Sense(p.turn), Values(p, depth, LegalMoves(p.grid, p.turn)))
  }

  /** The minimax values, one level less deep, of the positions that the
      moves ms lead to from p. */
  function Values(p: Position, depth: nat, ms: seq<Move>): seq<int>
    requires p.turn.IsSide() && 1 <= depth
    decreases depth, 0
  {
    seq(|ms|, i requires 0 <= i < |ms| => Minimax(ApplyMove(p, ms[i]), depth - 1))
  }

  /** Every minimax value lies between the two win values. */
  lemma {:induction false} MinimaxBounds(p: Position, depth: nat)
    requires p.turn.IsSide()
    ensures -WINNING_VALUE <= Minimax(p, depth) <= WINNING_VALUE
    decreases depth
  {
    ScoreBounds(p);
    if depth > 0 && Winner(p) == None {
      var ms := LegalMoves(p.grid, p.turn);
      var vs := Values(p, depth, ms);
      ValuesBounds(p, depth, ms);
      BestIsFirstBest(Sense(p.turn), vs);
      var i := FirstBest(Sense(p.turn), vs);
      assert Minimax(p, depth) == vs[i];
    }
  }

  /** Every value of Values lies between the two win values. */
  lemma ValuesBounds(p: Position, depth: nat, ms: seq<Move>)
    requires p.turn.IsSide() && 1 <= depth
    ensures forall i | 0 <= i < |ms| :: -WINNING_VALUE <= Values(p, depth, ms)[i] <= WINNING_VALUE
    decreases depth, 0
  {
    forall i | 0 <= i < |ms|
      ensures -WINNING_VALUE <= Values(p, depth, ms)[i] <= WINNING_VALUE
    {
      MinimaxBounds(ApplyMove(p, ms[i]), depth - 1);
    }
  }

  /** Minimax chooses among the legal moves: no legal move leads to a value
      better for the side to move, and some legal move leads to exactly the
      minimax value. */
  lemma MinimaxIsBest(p: Position, depth: nat)
    requires p.turn.IsSide() && depth > 0 && Winner(p) == None
    ensures forall m | LegalMove(p, m) ::
      !Improves(Sense(p.turn), Minimax(ApplyMove(p, m), depth - 1), Minimax(p, depth))
    ensures exists m | LegalMove(p, m) :: Minimax(ApplyMove(p, m), depth - 1) == Minimax(p, depth)
  {
    forall m | LegalMove(p, m)
      ensures !Improves(Sense(p.turn), Minimax(ApplyMove(p, m), depth - 1), Minimax(p, depth))
    {
      LegalMovesIff(p.grid, p.turn, m);
      var ms := LegalMoves(p.grid, p.turn);
      var i :| 0 <= i < |ms| && ms[i] == m;
      ChildValue(p, depth, i);
    }
    var ms := LegalMoves(p.grid, p.turn);
    var k := FirstBest(Sense(p.turn), Values(p, depth, ms));
    ChildValue(p, depth, k);
    LegalMovesIff(p.grid, p.turn, ms[k]);
  }

  /** The value of the i-th legal move's position is no better than the
      minimax value, and equal to it at the first best move. */
  lemma ChildValue(p: Position, depth: nat, i: int)
    requires p.turn.IsSide() && depth > 0 && Winner(p) == None
    requires 0 <= i < |LegalMoves(p.grid, p.turn)|
    ensures var ms := LegalMoves(p.grid, p.turn);
      var v := Minimax(ApplyMove(p, ms[i]), depth - 1);
      !Improves(Sense(p.turn), v, Minimax(p, depth)) &&
      (i == FirstBest(Sense(p.turn), Values(p, depth, ms)) ==> v == Minimax(p, depth))
  {
    var ms := LegalMoves(p.grid, p.turn);
    var vs := Values(p, depth, ms);
    ValuesBounds(p, depth, ms);
    BestIsFirstBest(Sense(p.turn), vs);
    FirstBestIsFirst(Sense(p.turn), vs);
    assert vs[i] == Minimax(ApplyMove(p, ms[i]), depth - 1);
  }

  /** One step of the search loop, on values. Before it, the running value
      is the best of the values vs seen so far and the window bound has
      moved at most to it; the step moves the bound to the running value,
      takes in the next value v, and records the move exactly when the new
      running value is strictly better than the bound. With the widest
      window the move recorded is the first best one. */
  lemma SearchStep(sense: int, bound0: int, bound: int, vs: seq<int>, v: int)
    requires sense == 1 || sense == -1
    requires forall i | 0 <= i < |vs| :: -WINNING_VALUE <= vs[i] <= WINNING_VALUE
    requires -WINNING_VALUE <= v <= WINNING_VALUE
    requires sense == 1 ==> bound0 <= bound <= Max(bound0, Best(sense, vs))
    requires sense == -1 ==> Min(bound0, Best(sense, vs)) <= bound <= bound0
    ensures var bound' := if sense == 1 then Max(bound, Best(sense, vs)) else Min(bound, Best(sense, vs));
      var value' := if sense == 1 then Max(Best(sense, vs), v) else Min(Best(sense, vs), v);
      value' == Best(sense, vs + [v]) &&
      (sense == 1 ==> bound0 <= bound' <= Max(bound0, value')) &&
      (sense == -1 ==> Min(bound0, value') <= bound' <= bound0) &&
      (bound0 == -sense * INFTY ==>
        (Improves(sense, value', bound') <==> FirstBest(sense, vs + [v]) == |vs|))
  {
    assert (vs + [v])[..|vs|] == vs;
    BestIsFirstBest(sense, vs);
    if vs != [] {
      var k := FirstBest(sense, vs);
      assert (vs + [v])[k] == vs[k];
    }
  }

  /** The values, one level less deep, of the positions that the moves
      ms and then m lead to: those of ms followed by that of m. */
  lemma ValuesSnoc(p: Position, depth: nat, ms: seq<Move>, m: Move)
    requires p.turn.IsSide() && 1 <= depth
    ensures Values(p, depth, ms + [m]) == Values(p, depth, ms) + [Minimax(ApplyMove(p, m), depth - 1)]
  {
    var vs := Values(p, depth, ms + [m]);
    var ws := Values(p, depth, ms) + [Minimax(ApplyMove(p, m), depth - 1)];
    assert |vs| == |ws|;
    forall i | 0 <= i < |vs| ensures vs[i] == ws[i] {
      assert (ms + [m])[i] == if i < |ms| then ms[i] else m;
    }
  }

  /** Taking the next move m off the moves still to explore keeps done
      followed by those moves equal to ms, and m is one of ms. */
  lemma TakeNext(ms: seq<Move>, done: seq<Move>, rest: seq<Move>, m: Move)
    requires done + ([m] + rest) == ms
    ensures (done + [m]) + rest == ms && m in ms
  {
    assert ms[|done|] == m;
  }

  /** The state of the search loop once the moves `done`, of values vs,
      have been explored, `found0` being the move recorded before the
      search: the running value is the best of the values, the moving bound
      of the window (alpha for White, beta for Black) lies between its
      first value and the running value, a move is recorded only when
      saveMove holds and only from among `done`, and with the widest window
      the move recorded is the first best one. */
  ghost predicate Explored(sense: int, saveMove: bool, alpha: int, beta: int, done: seq<Move>, vs: seq<int>,
                           value: int, a: int, b: int, found: Option<Move>, found0: Option<Move>)
  {
    |vs| == |done| &&
    (forall i | 0 <= i < |vs| :: -WINNING_VALUE <= vs[i] <= WINNING_VALUE) &&
    value == Best(sense, vs) &&
    (sense == 1 ==> alpha <= a <= Max(alpha, value) && b == beta) &&
    (sense == -1 ==> Min(beta, value) <= b <= beta && a == alpha) &&
    (!saveMove ==> found == found0) &&
    (found == found0 || (found.Some? && found.value in done)) &&
    (saveMove && alpha == -INFTY && beta == INFTY && done != [] ==> found == Some(done[FirstBest(sense, vs)]))
  }

  /** Before the first move nothing is explored. */
  lemma ExploredStart(sense: int, saveMove: bool, alpha: int, beta: int, found0: Option<Move>)
    requires sense == 1 || sense == -1
    ensures Explored(sense, saveMove, alpha, beta, [], [], Worst(sense), alpha, beta, found0, found0)
  {
  }

  /** Exploring one more move, whose position has value v: the bound moves
      to the running value, the running value takes in v, and the move is
      recorded when saveMove holds and the new running value is strictly
      better than the bound. */
  lemma ExploredStep(sense: int, saveMove: bool, alpha: int, beta: int, done: seq<Move>, vs: seq<int>,
                     value: int, a: int, b: int, found: Option<Move>, found0: Option<Move>, move: Move, v: int)
    requires sense == 1 || sense == -1
    requires Explored(sense, saveMove, alpha, beta, done, vs, value, a, b, found, found0)
    requires -WINNING_VALUE <= v <= WINNING_VALUE
    ensures var a' := if sense == 1 then Max(a, value) else a;
      var b' := if sense == 1 then b else Min(b, value);
      var value' := if sense == 1 then Max(value, v) else Min(value, v);
      var found' := if saveMove && (if sense == 1 then value' > a' else value' < b') then Some(move) else found;
      Explored(sense, saveMove, alpha, beta, done + [move], vs + [v], value', a', b', found', found0)
  {
    SearchStep(sense, if sense == 1 then alpha else beta, if sense == 1 then a else b, vs, v);
    if vs != [] {
      assert (done + [move])[FirstBest(sense, vs)] == done[FirstBest(sense, vs)];
    }
  }

  /** Once every legal move has been explored the running value is the
      minimax value, and what is recorded is legal. */
  lemma ExploredAll(p: Position, depth: nat, sense: int, saveMove: bool, alpha: int, beta: int, vs: seq<int>,
                    value: int, a: int, b: int, found: Option<Move>, found0: Option<Move>)
    requires p.turn.IsSide() && 1 <= depth && Winner(p) == None && sense == Sense(p.turn)
    requires vs == Values(p, depth, LegalMoves(p.grid, p.turn))
    requires Explored(sense, saveMove, alpha, beta, LegalMoves(p.grid, p.turn), vs, value, a, b, found, found0)
    ensures value == Minimax(p, depth)
    ensures found == found0 || (found.Some? && LegalMove(p, found.value))
  {
    if found != found0 {
      LegalMovesIff(p.grid, p.turn, found.value);
    }
  }

  /** The player: the side it plays and the move its last recording search found. */
  class AI {
    /** The side this player plays. */
    const myPiece: Piece
    /** The move found by the last search that recorded one; None before any. */
    var lastFoundMove: Option<Move>

    /** A player for `piece` that has found no move yet. */
    constructor (piece: Piece)
      ensures myPiece == piece && lastFoundMove == None
    {
      myPiece := piece;
      lastFoundMove := None;
    }

    /** The move to play on `game`: a search of a copy of `game`, which
        itself is left alone, recording its move. The copy has no history,
        so the search is one level deep. When the game is already over no
        move is recorded and the previous one is returned. */
    method FindMove(game: Board) returns (move: Option<Move>)
      requires game.Valid() && game.turn == myPiece
      modifies this`lastFoundMove
      ensures move == lastFoundMove
      ensures Winner(game.State()).Some? ==> move == old(lastFoundMove)
      ensures Winner(game.State()) == None ==>
        var ms := LegalMoves(game.cells, game.turn);
        move == Some(ms[FirstBest(Sense(game.turn), Values(game.State(), 1, ms))]) &&
        LegalMove(game.State(), move.value)
    {
      ghost var p := game.State();
      var b := new Board.CopyOf(game);
      var depth := MaxDepth(b.NumMoves());
      var value;
      if myPiece == White {
        value := FindMoveFrom(b, depth, true, 1, -INFTY, INFTY);
      } else {
        value := FindMoveFrom(b, depth, true, -1, -INFTY, INFTY);
      }
      move := lastFoundMove;
      if Winner(p) == None {
        var ms := LegalMoves(p.grid, p.turn);
        assert move.value in ms;
        LegalMovesIff(p.grid, p.turn, move.value);
      }
    }

    /** Searches `depth` levels from the position of `board`, with `sense`
        the sense of the side to move, and returns the minimax value: the
        window alpha..beta is narrowed as the search goes but never cuts it
        short. When saveMove holds, each move whose value is strictly better
        than the current bound is recorded. The board ends as it began. */
    method FindMoveFrom(board: Board, depth: nat, saveMove: bool, sense: int, alpha: int, beta: int)
      returns (value: int)
      requires board.Valid() && sense == Sense(board.turn)
      modifies this`lastFoundMove, board, board.pieces
      ensures board.Valid() && board.pieces == old(board.pieces)
      ensures board.State() == old(board.State()) && board.moves == old(board.moves)
      ensures value == Minimax(old(board.State()), depth)
      ensures depth == 0 || old(Winner(board.State())).Some? || !saveMove ==>
        lastFoundMove == old(lastFoundMove)
      ensures lastFoundMove == old(lastFoundMove) ||
        (lastFoundMove.Some? && LegalMove(old(board.State()), lastFoundMove.value))
      ensures saveMove && alpha == -INFTY && beta == INFTY && depth > 0 && old(Winner(board.State())) == None ==>
        var ms := old(LegalMoves(board.cells, board.turn));
        lastFoundMove == Some(ms[FirstBest(sense, Values(old(board.State()), depth, ms))])
      decreases depth, 4
    {
      var winner := board.Winner();
      if depth == 0 || winner.Some? {
        value := StaticScore(board);
        return;
      }
      ghost var p := board.State();
      ghost var a, b;
      value, a, b := SearchMoves(board, p, depth, saveMove, sense, alpha, beta);
      ExploredAll(p, depth, sense, saveMove, alpha, beta, Values(p, depth, LegalMoves(p.grid, p.turn)), value, a, b,
                  lastFoundMove, old(lastFoundMove));
    }

    /** The search of a position p that is not over, at least one level
        deep: every legal move is explored in turn, and the loop ends in the
        state Explored describes, with every legal move explored. */
    method SearchMoves(board: Board, ghost p: Position, depth: nat, saveMove: bool, sense: int, alpha: int, beta: int)
      returns (value: int, ghost a': int, ghost b': int)
      requires board.Valid() && board.State() == p && sense == Sense(p.turn)
      requires 1 <= depth && Winner(p) == None
      modifies this`lastFoundMove, board, board.pieces
      ensures board.Valid() && board.pieces == old(board.pieces)
      ensures board.State() == p && board.moves == old(board.moves)
      ensures var ms := LegalMoves(p.grid, p.turn);
        Explored(sense, saveMove, alpha, beta, ms, Values(p, depth, ms), value, a', b', lastFoundMove, old(lastFoundMove))
      decreases depth, 3
    {
      ghost var ms := LegalMoves(p.grid, p.turn);
      var legal;
      if sense == 1 {
        legal := board.LegalMovesOf(White);
        value := MIN_VALUE;
      } else {
        legal := board.LegalMovesOf(Black);
        value := INFTY;
      }
      var a, b := alpha, beta;
      ghost var done: seq<Move> := [];
      ghost var vs: seq<int> := [];
      ExploredStart(sense, saveMove, alpha, beta, lastFoundMove);
      while legal.HasNext()
        invariant legal.Valid() && legal.Current()
        invariant board.State() == p && board.moves == old(board.moves) && board.pieces == old(board.pieces)
        invariant done + legal.rest == ms && vs == Values(p, depth, done)
        invariant Explored(sense, saveMove, alpha, beta, done, vs, value, a, b, lastFoundMove, old(lastFoundMove))
        decreases |legal.rest|
      {
        var move;
        value, a, b, move := Step(board, legal, p, depth, saveMove, sense, alpha, beta, ms, done, vs, value, a, b, old(lastFoundMove));
        ValuesSnoc(p, depth, done, move);
        done, vs := done + [move], vs + [Minimax(ApplyMove(p, move), depth - 1)];
      }
      assert done == ms;
      a', b' := a, b;
    }

    /** Takes the next legal move off `legal` and explores it. */
    method Step(board: Board, legal: LegalMoveIterator, ghost p: Position, depth: nat, saveMove: bool, sense: int,
                alpha: int, beta: int, ghost ms: seq<Move>, ghost done: seq<Move>, ghost vs: seq<int>,
                value: int, a: int, b: int, ghost found0: Option<Move>)
      returns (value': int, a': int, b': int, move: Move)
      requires board.Valid() && board.State() == p && sense == Sense(p.turn) && 1 <= depth
      requires legal.Valid() && legal.Current() && legal.board == board && legal.rest != []
      requires ms == LegalMoves(p.grid, p.turn) && done + legal.rest == ms
      requires Explored(sense, saveMove, alpha, beta, done, vs, value, a, b, lastFoundMove, found0)
      modifies legal, this`lastFoundMove, board, board.pieces
      ensures legal.Valid() && legal.Current() && (done + [move]) + legal.rest == ms
      ensures board.Valid() && board.pieces == old(board.pieces)
      ensures board.State() == p && board.moves == old(board.moves)
      ensures Explored(sense, saveMove, alpha, beta, done + [move], vs + [Minimax(ApplyMove(p, move), depth - 1)],
                       value', a', b', lastFoundMove, found0)
      decreases depth, 2
    {
      var next := legal.Next();
      move := next.value;
      TakeNext(ms, done, legal.rest, move);
      value', a', b' := ExploreMove(board, move, depth, saveMove, sense, alpha, beta, done, vs, value, a, b, found0);
    }

    /** One turn of the search loop: moves the window bound to the running
        value, explores the legal move `move`, takes its value into the
        running value and records the move when saveMove holds and the new
        running value is strictly better than the bound. The board ends as
        it began. */
    method ExploreMove(board: Board, move: Move, depth: nat, saveMove: bool, sense: int, alpha: int, beta: int,
                       ghost done: seq<Move>, ghost vs: seq<int>, value: int, a: int, b: int, ghost found0: Option<Move>)
      returns (value': int, a': int, b': int)
      requires board.Valid() && sense == Sense(board.turn) && 1 <= depth
      requires move in LegalMoves(board.cells, board.turn)
      requires Explored(sense, saveMove, alpha, beta, done, vs, value, a, b, lastFoundMove, found0)
      modifies this`lastFoundMove, board, board.pieces
      ensures board.Valid() && board.pieces == old(board.pieces)
      ensures board.State() == old(board.State()) && board.moves == old(board.moves)
      ensures a' == (if sense == 1 then Max(a, value) else a) && b' == (if sense == 1 then b else Min(b, value))
      ensures var v := Minimax(ApplyMove(old(board.State()), move), depth - 1);
        value' == (if sense == 1 then Max(value, v) else Min(value, v))
      ensures lastFoundMove == (if saveMove && (if sense == 1 then value' > a' else value' < b') then Some(move)
                                else old(lastFoundMove))
      ensures Explored(sense, saveMove, alpha, beta, done + [move], vs + [Minimax(ApplyMove(old(board.State()), move), depth - 1)],
                       value', a', b', lastFoundMove, found0)
      decreases depth, 1
    {
      ghost var p := board.State();
      ghost var found := lastFoundMove;
      LegalMovesIff(p.grid, p.turn, move);
      a', b' := a, b;
      if sense == 1 {
        a' := Max(a, value);
      } else {
        b' := Min(b, value);
      }
      var v := Explore(board, move, depth, sense, a', b');
      if sense == 1 {
        value' := Max(value, v);
      } else {
        value' := Min(value, v);
      }
      if saveMove && (if sense == 1 then value' > a' else value' < b') {
        lastFoundMove := Some(move);
      }
      MinimaxBounds(ApplyMove(p, move), depth - 1);
      ExploredStep(sense, saveMove, alpha, beta, done, vs, value, a, b, found, found0, move, v);
    }

    /** Makes the legal move `move`, searches the position it leads to one
        level less deep for the other side, without recording, and takes
        the move back: the board ends as it began and the value is the
        minimax value of the position after the move. */
    method Explore(board: Board, move: Move, depth: nat, sense: int, alpha: int, beta: int) returns (v: int)
      requires board.Valid() && sense == Sense(board.turn) && 1 <= depth
      requires LegalMove(board.State(), move)
      modifies this`lastFoundMove, board, board.pieces
      ensures board.Valid() && board.pieces == old(board.pieces)
      ensures board.State() == old(board.State()) && board.moves == old(board.moves)
      ensures lastFoundMove == old(lastFoundMove)
      ensures v == Minimax(ApplyMove(old(board.State()), move), depth - 1)
      decreases depth, 0
    {
      ghost var p := board.State();
      board.MakeMove(move);
      v := FindMoveFrom(board, depth - 1, false, -sense, alpha, beta);
      board.Undo();
      UndoAfterApply(p, move);
    }

    /** The static value of the position of `board`. */
    method StaticScore(board: Board) returns (score: int)
      requires board.Valid()
      ensures score == Score(board.State())
    {
      var winner := board.Winner();
      if winner == Some(Black) {
        return -WINNING_VALUE;
      } else if winner == Some(White) {
        return WINNING_VALUE;
      }
      var whitescore := CountMoves(board, White);
      var blackscore := CountMoves(board, Black);
      score := whitescore - blackscore;
    }

    /** The number of legal moves of `side`, counted by running through them. */
    method CountMoves(board: Board, side: Piece) returns (count: int)
      requires board.Valid()
      ensures count == |LegalMoves(board.cells, side)|
    {
      count := 0;
      var moves := board.LegalMovesOf(side);
      while moves.HasNext()
        invariant moves.Valid() && moves.Current()
        invariant count + |moves.rest| == |LegalMoves(board.cells, side)|
        decreases |moves.rest|
      {
        var m := moves.Next();
        count := count + 1;
      }
    }
  }
}
