/**
  The agent as the program runs it: one shared board that every trial
  move is played on and taken back from, and the move choice that skips
  the search on an empty board.
 */
module Agent {
  import opened Wrappers
  import opened Board
  import opened Search
  import opened Pruning

  /** The search with the shared board threaded through: `after` is the
      board handed back to the caller once every trial move was undone. */
  method MinimaxInPlace(game: Game, me: Player, cur: Player, alpha: int, beta: int)
    returns (best: Scored, after: Game)
    requires |game.board| == Size
    decreases NumEmptySquares(game.board), 1
    ensures after == game
    ensures best == Minimax(game, me, cur, alpha, beta)
  {
    after := game;
    var terminal := TerminalScore(game, me);
    if terminal.Some? {
      best := Scored(None, terminal.value);
      return;
    }
    var maximizing := cur == me;
    best := Initial(maximizing);
    var a, b := alpha, beta;
    var moves := AvailableMoves(game.board);
    ghost var target := Minimax(game, me, cur, alpha, beta);
    assert target == SearchMoves(game, me, cur, moves, a, b, best);
    var i := 0;
    while i < |moves|
      invariant 0 <= i <= |moves|
      invariant after == game
      invariant SearchMoves(game, me, cur, moves[i..], a, b, best) == target
    {
      var m := moves[i];
      var reply;
      reply, after := TryMove(after, me, cur, m, a, b);
      SearchMovesAt(game, me, cur, moves, i, a, b, best, reply);
      var w := Update(maximizing, Scored(Some(m), reply.score), Window(best, a, b));
      best, a, b := w.best, w.alpha, w.beta;
      if a >= b {
        break;
      }
      i := i + 1;
    }
  }

  /** One trial move on the shared board: play the free cell `m`, search
      the reply, and take the move back. */
  method TryMove(game: Game, me: Player, cur: Player, m: nat, alpha: int, beta: int)
    returns (reply: Scored, after: Game)
    requires |game.board| == Size && game.winner == None && m < Size && game.board[m] == Empty
    decreases NumEmptySquares(game.board), 0
    ensures after == game
    ensures reply == Minimax(Child(game, m, cur), me, Opponent(cur), alpha, beta)
  {
    after := MakeMove(game, m, cur).game;
    MoveDecrements(game, m, cur);
    reply, after := MinimaxInPlace(after, me, Opponent(cur), alpha, beta);
    after := Undo(after, m);
    UndoRestores(game, m, cur);
  }

  /** The agent's move: on an empty board any free cell (the program draws
      one at random), otherwise the search's choice, which is the first
      free cell whose unpruned value is the best. None on a finished game. */
  method GetMove(g: Game, me: Player) returns (move: Option<nat>)
    requires |g.board| == Size
    ensures move.Some? ==> move.value < Size && g.board[move.value] == Empty
    ensures g.winner == None && NumEmptySquares(g.board) > 0 ==> move.Some?
    ensures g.winner == None && 0 < NumEmptySquares(g.board) < Size ==>
      move.Some? && FirstBestMove(g, me, AvailableMoves(g.board), move.value)
  {
    var moves := AvailableMoves(g.board);
    if |moves| == Size {
      assert moves[0] in moves;
      var m :| m in moves;
      return Some(m);
    }
    var best, _ := MinimaxInPlace(g, me, me, -Inf, Inf);
    if g.winner == None && NumEmptySquares(g.board) > 0 {
      AgentPicksFirstBestMove(g, me);
    }
    move := best.position;
  }
}
