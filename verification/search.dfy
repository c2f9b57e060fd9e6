/**
  The search agent: minimax with alpha-beta pruning over the shared
  board, and the same search without pruning as a reference.
  Scores are from the agent's (`me`'s) point of view.
 */
module Search {
  import opened Wrappers
  import opened Board

  /** Integer stand-in for the infinite initial bounds; every score the
      search can produce lies in [-10, 10]. */
  const Inf: int := 100

  /** A search result: the move that led to the score (None at a leaf). */
  datatype Scored = Scored(position: Option<nat>, score: int)

  /** The score of a finished game, or None while moves remain: a win is
      worth one more than the number of free cells, positive for `me`. */
  function TerminalScore(g: Game, me: Player): Option<int> {
    var n := NumEmptySquares(g.board);
    if g.winner == Some(me) then Some(n + 1)
    else if g.winner != None then Some(-(n + 1))
    else if AvailableMoves(g.board) == [] then Some(0)
    else None
  }

  /** The search stops exactly on a won or full board; a score of 0 is a
      tie, and the sign of any other score says who won. */
  lemma TerminalScoreMeaning(g: Game, me: Player)
    ensures var r := TerminalScore(g, me);
      && (r.None? <==> g.winner == None && Empty in g.board)
      && (r == Some(0) <==> IsTie(g))
      && (r.Some? && r.value > 0 <==> g.winner == Some(me))
      && (r.Some? && r.value < 0 <==> g.winner.Some? && g.winner != Some(me))
      && (r.Some? ==> -(|g.board| + 1) <= r.value <= |g.board| + 1)
  {
    NumEmptySquaresCounts(g.board);
  }

  /** The starting "best so far": worse than every real score for the side. */
  function Initial(maximizing: bool): Scored {
    if maximizing then Scored(None, -Inf) else Scored(None, Inf)
  }

  /** Keeps the candidate only when it is strictly better for the side. */
  function Keep(maximizing: bool, candidate: Scored, best: Scored): Scored {
    if maximizing then (if candidate.score > best.score then candidate else best)
    else (if candidate.score < best.score then candidate else best)
  }

  /** The window update's `max(alpha, best_score)`. */
  function Max(a: int, b: int): (m: int)
    ensures m >= a && m >= b
    ensures m == a || m == b
  {
    if a >= b then a else b
  }

  /** The window update's `min(beta, best_score)`. */
  function Min(a: int, b: int): (m: int)
    ensures m <= a && m <= b
    ensures m == a || m == b
  {
    if a <= b then a else b
  }

  /** The best so far together with the search window. */
  datatype Window = Window(best: Scored, alpha: int, beta: int)

  /** One turn of the loop's bookkeeping: keep the candidate when strictly
      better, then raise alpha (maximizing) or lower beta (minimizing) to
      the best score. */
  function Update(maximizing: bool, candidate: Scored, w: Window): Window {
    var best := Keep(maximizing, candidate, w.best);
    if maximizing then Window(best, Max(w.alpha, best.score), w.beta)
    else Window(best, w.alpha, Min(w.beta, best.score))
  }

  /** The game after `cur` plays the free cell `m`. */
  function Child(g: Game, m: nat, cur: Player): Game
    requires |g.board| == Size && m < Size
  {
    MakeMove(g, m, cur).game
  }

  // ---------------------------------------------------------------------
  // Alpha-beta search
  // ---------------------------------------------------------------------

  function Minimax(g: Game, me: Player, cur: Player, alpha: int, beta: int): (r: Scored)
    requires |g.board| == Size
    decreases NumEmptySquares(g.board), 1
    ensures g.winner == Some(me) ==> r == Scored(None, NumEmptySquares(g.board) + 1)
    ensures g.winner.Some? && g.winner != Some(me) ==>
      r == Scored(None, -(NumEmptySquares(g.board) + 1))
    ensures g.winner == None && NumEmptySquares(g.board) == 0 ==> r == Scored(None, 0)
    ensures g.winner == None && NumEmptySquares(g.board) > 0 ==>
      r.position.Some? && r.position.value in AvailableMoves(g.board)
      && -(NumEmptySquares(g.board) as int) <= r.score <= NumEmptySquares(g.board)
    ensures -(Size + 1) <= r.score <= Size + 1
  {
    match TerminalScore(g, me)
    case Some(s) => Scored(None, s)
    case None =>
      SearchMoves(g, me, cur, AvailableMoves(g.board), alpha, beta, Initial(cur == me))
  }

  /** The loop over the candidate moves: try each, score the reply, keep
      the strictly better one, tighten the window and stop once
      alpha >= beta. */
  function SearchMoves(g: Game, me: Player, cur: Player, moves: seq<nat>,
                       alpha: int, beta: int, best: Scored): (r: Scored)
    requires |g.board| == Size && g.winner == None
    requires forall i :: 0 <= i < |moves| ==> moves[i] < Size && g.board[moves[i]] == Empty
    decreases NumEmptySquares(g.board), 0, |moves|
    ensures r == best || (r.position.Some? && r.position.value in moves
      && -(NumEmptySquares(g.board) as int) <= r.score <= NumEmptySquares(g.board))
    ensures moves != [] && best == Initial(cur == me) ==> r != best
    ensures cur == me ==> r.score >= best.score
    ensures cur != me ==> r.score <= best.score
  {
    if moves == [] then best
    else
      var m := moves[0];
      MoveDecrements(g, m, cur);
      var reply := Minimax(Child(g, m, cur), me, Opponent(cur), alpha, beta);
      var w := Update(cur == me, Scored(Some(m), reply.score), Window(best, alpha, beta));
      if w.alpha >= w.beta then w.best
      else SearchMoves(g, me, cur, moves[1..], w.alpha, w.beta, w.best)
  }

  /** The turn of the loop at index `i`, with the reply's score given. */
  lemma SearchMovesAt(g: Game, me: Player, cur: Player, moves: seq<nat>, i: nat,
                      alpha: int, beta: int, best: Scored, reply: Scored)
    requires |g.board| == Size && g.winner == None && i < |moves|
    requires forall k :: 0 <= k < |moves| ==> moves[k] < Size && g.board[moves[k]] == Empty
    requires reply == Minimax(Child(g, moves[i], cur), me, Opponent(cur), alpha, beta)
    ensures var w := Update(cur == me, Scored(Some(moves[i]), reply.score), Window(best, alpha, beta));
      SearchMoves(g, me, cur, moves[i..], alpha, beta, best) ==
        if w.alpha >= w.beta then w.best
        else SearchMoves(g, me, cur, moves[i + 1..], w.alpha, w.beta, w.best)
  {
    assert moves[i..][1..] == moves[i + 1..];
  }

  // ---------------------------------------------------------------------
  // Reference search without pruning
  // ---------------------------------------------------------------------

  function PlainMinimax(g: Game, me: Player, cur: Player): (r: Scored)
    requires |g.board| == Size
    decreases NumEmptySquares(g.board), 1
    ensures TerminalScore(g, me).Some? ==> r == Scored(None, TerminalScore(g, me).value)
    ensures -(NumEmptySquares(g.board) + 1) <= r.score <= NumEmptySquares(g.board) + 1
  {
    match TerminalScore(g, me)
    case Some(s) => Scored(None, s)
    case None => PlainSearch(g, me, cur, AvailableMoves(g.board), Initial(cur == me))
  }

  function PlainSearch(g: Game, me: Player, cur: Player, moves: seq<nat>, best: Scored): (r: Scored)
    requires |g.board| == Size && g.winner == None
    requires forall i :: 0 <= i < |moves| ==> moves[i] < Size && g.board[moves[i]] == Empty
    decreases NumEmptySquares(g.board), 0, |moves|
    ensures r == best || (r.position.Some? && r.position.value in moves
      && -(NumEmptySquares(g.board) as int) <= r.score <= NumEmptySquares(g.board))
    ensures moves != [] && best == Initial(cur == me) ==> r != best
    ensures cur == me ==> r.score >= best.score
    ensures cur != me ==> r.score <= best.score
  {
    if moves == [] then best
    else
      var m := moves[0];
      MoveDecrements(g, m, cur);
      var reply := PlainMinimax(Child(g, m, cur), me, Opponent(cur));
      PlainSearch(g, me, cur, moves[1..], Keep(cur == me, Scored(Some(m), reply.score), best))
  }

  /** The unpruned value of the game after `cur` plays `m`. */
  function ChildValue(g: Game, me: Player, cur: Player, m: nat): int
    requires |g.board| == Size && m < Size
  {
    PlainMinimax(Child(g, m, cur), me, Opponent(cur)).score
  }
}
