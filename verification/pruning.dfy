/**
  Why pruning is safe: alpha-beta search relates to the unpruned search
  as a fail-soft bound, and with the full window it returns the very same
  score and move, namely the first move in ascending order whose unpruned
  value is best.
 */
module Pruning {
  import opened Wrappers
  import opened Board
  import opened Search

  /** The fail-soft relation between a pruned score `r` and the true value
      `v` for the window (alpha, beta). */
  predicate FailSoft(r: int, v: int, alpha: int, beta: int) {
    && (r <= alpha ==> v <= r)
    && (alpha < r < beta ==> v == r)
    && (r >= beta ==> v >= r)
  }

  predicate LegalMoves(g: Game, moves: seq<nat>)
    requires |g.board| == Size
  {
    forall i :: 0 <= i < |moves| ==> moves[i] < Size && g.board[moves[i]] == Empty
  }

  /** For every window inside (-Inf, Inf) the pruned score bounds the true
      value from the correct side, and equals it inside the window. */
  lemma {:induction false} MinimaxFailSoft(g: Game, me: Player, cur: Player, alpha: int, beta: int)
    requires |g.board| == Size
    requires -Inf <= alpha < beta <= Inf
    decreases NumEmptySquares(g.board), 1
    ensures FailSoft(Minimax(g, me, cur, alpha, beta).score, PlainMinimax(g, me, cur).score, alpha, beta)
  {
    if TerminalScore(g, me).None? {
      var moves := AvailableMoves(g.board);
      if cur == me {
        MaxLoopFailSoft(g, me, moves, alpha, beta, Initial(true), Initial(true));
      } else {
        MinLoopFailSoft(g, me, cur, moves, alpha, beta, Initial(false), Initial(false));
      }
    }
  }

  /** The maximizing loop, with the pruned and unpruned best-so-far
      satisfying pbest <= best <= alpha. */
  lemma {:induction false} MaxLoopFailSoft(g: Game, me: Player, moves: seq<nat>,
                                          alpha: int, beta: int, best: Scored, pbest: Scored)
    requires |g.board| == Size && g.winner == None && LegalMoves(g, moves)
    requires -Inf <= alpha < beta <= Inf
    requires pbest.score <= best.score <= alpha
    decreases NumEmptySquares(g.board), 0, |moves|
    ensures FailSoft(SearchMoves(g, me, me, moves, alpha, beta, best).score,
                     PlainSearch(g, me, me, moves, pbest).score, alpha, beta)
  {
    if moves != [] {
      var m := moves[0];
      var c := Child(g, m, me);
      MoveDecrements(g, m, me);
      MinimaxFailSoft(c, me, Opponent(me), alpha, beta);
      var r0 := Minimax(c, me, Opponent(me), alpha, beta).score;
      var best' := Keep(true, Scored(Some(m), r0), best);
      var pbest' := Keep(true, Scored(Some(m), ChildValue(g, me, me, m)), pbest);
      var alpha' := Max(alpha, best'.score);
      if alpha' < beta {
        MaxLoopFailSoft(g, me, moves[1..], alpha', beta, best', pbest');
      }
    }
  }

  /** The minimizing loop, with beta <= best <= pbest. */
  lemma {:induction false} MinLoopFailSoft(g: Game, me: Player, cur: Player, moves: seq<nat>,
                                          alpha: int, beta: int, best: Scored, pbest: Scored)
    requires |g.board| == Size && g.winner == None && LegalMoves(g, moves)
    requires cur != me
    requires -Inf <= alpha < beta <= Inf
    requires beta <= best.score <= pbest.score
    decreases NumEmptySquares(g.board), 0, |moves|
    ensures FailSoft(SearchMoves(g, me, cur, moves, alpha, beta, best).score,
                     PlainSearch(g, me, cur, moves, pbest).score, alpha, beta)
  {
    if moves != [] {
      var m := moves[0];
      var c := Child(g, m, cur);
      MoveDecrements(g, m, cur);
      MinimaxFailSoft(c, me, Opponent(cur), alpha, beta);
      var r0 := Minimax(c, me, Opponent(cur), alpha, beta).score;
      var best' := Keep(false, Scored(Some(m), r0), best);
      var pbest' := Keep(false, Scored(Some(m), ChildValue(g, me, cur, m)), pbest);
      var beta' := Min(beta, best'.score);
      if alpha < beta' {
        MinLoopFailSoft(g, me, cur, moves[1..], alpha, beta', best', pbest');
      }
    }
  }

  /** At the root the window is (best, Inf) throughout, and the pruned
      loop makes exactly the choices of the unpruned one. */
  lemma {:induction false} RootLoopAgrees(g: Game, me: Player, moves: seq<nat>, best: Scored)
    requires |g.board| == Size && g.winner == None && LegalMoves(g, moves)
    requires -Inf <= best.score < Inf
    decreases |moves|
    ensures SearchMoves(g, me, me, moves, best.score, Inf, best) == PlainSearch(g, me, me, moves, best)
  {
    if moves != [] {
      var m := moves[0];
      var c := Child(g, m, me);
      MoveDecrements(g, m, me);
      MinimaxFailSoft(c, me, Opponent(me), best.score, Inf);
      var r0 := Minimax(c, me, Opponent(me), best.score, Inf).score;
      var best' := Keep(true, Scored(Some(m), r0), best);
      assert best' == Keep(true, Scored(Some(m), ChildValue(g, me, me, m)), best);
      assert best'.score == Max(best.score, best'.score);
      RootLoopAgrees(g, me, moves[1..], best');
    }
  }

  /** Alpha-beta search started as the agent starts it, with the full
      window, returns the same move and score as the unpruned search. */
  lemma AlphaBetaAgreesAtRoot(g: Game, me: Player)
    requires |g.board| == Size
    ensures Minimax(g, me, me, -Inf, Inf) == PlainMinimax(g, me, me)
  {
    if TerminalScore(g, me).None? {
      RootLoopAgrees(g, me, AvailableMoves(g.board), Initial(true));
    }
  }

  /** `m` is the first of `moves` whose value in `vs` is the largest. */
  predicate FirstBestAt(moves: seq<nat>, vs: seq<int>, m: nat)
    requires |vs| == |moves|
  {
    exists k :: 0 <= k < |moves| && moves[k] == m
      && (forall j :: 0 <= j < |moves| ==> vs[j] <= vs[k])
      && (forall j :: 0 <= j < k ==> vs[j] < vs[k])
  }

  /** `m` is the first of `moves` whose unpruned value is the largest. */
  predicate FirstBestMove(g: Game, me: Player, moves: seq<nat>, m: nat)
    requires |g.board| == Size && LegalMoves(g, moves)
  {
    FirstBestAt(moves, ChildValues(g, me, moves), m)
  }

  /** The unpruned values of the children, in move order. */
  function ChildValues(g: Game, me: Player, moves: seq<nat>): (vs: seq<int>)
    requires |g.board| == Size && LegalMoves(g, moves)
    ensures |vs| == |moves|
    ensures forall i :: 0 <= i < |moves| ==> vs[i] == ChildValue(g, me, me, moves[i])
  {
    seq(|moves|, i requires 0 <= i < |moves| => ChildValue(g, me, me, moves[i]))
  }

  /** The maximizing keep-the-strictly-better loop over given values. */
  function KeepBest(moves: seq<nat>, vs: seq<int>, best: Scored): Scored
    requires |vs| == |moves|
    decreases |moves|
  {
    if moves == [] then best
    else KeepBest(moves[1..], vs[1..], Keep(true, Scored(Some(moves[0]), vs[0]), best))
  }

  /** The unpruned maximizing loop is the keep-the-better loop over the
      children's values. */
  lemma {:induction false} PlainSearchKeepsBest(g: Game, me: Player, moves: seq<nat>, best: Scored)
    requires |g.board| == Size && g.winner == None && LegalMoves(g, moves)
    decreases |moves|
    ensures PlainSearch(g, me, me, moves, best) == KeepBest(moves, ChildValues(g, me, moves), best)
  {
    if moves != [] {
      var vs := ChildValues(g, me, moves);
      var best' := Keep(true, Scored(Some(moves[0]), vs[0]), best);
      assert vs[1..] == ChildValues(g, me, moves[1..]);
      PlainSearchKeepsBest(g, me, moves[1..], best');
    }
  }

  /** No value exceeds what the keep-the-better loop returns. */
  lemma {:induction false} KeepBestBounds(moves: seq<nat>, vs: seq<int>, best: Scored)
    requires |vs| == |moves|
    decreases |moves|
    ensures KeepBest(moves, vs, best).score >= best.score
    ensures forall j :: 0 <= j < |vs| ==> vs[j] <= KeepBest(moves, vs, best).score
  {
    if moves != [] {
      var best' := Keep(true, Scored(Some(moves[0]), vs[0]), best);
      KeepBestBounds(moves[1..], vs[1..], best');
      forall j | 0 < j < |vs|
        ensures vs[j] <= KeepBest(moves, vs, best).score
      {
        assert vs[j] == vs[1..][j - 1];
      }
    }
  }

  /** The keep-the-better loop returns the first value that beats every
      earlier one; `k` is its index, or -1 when none beat `best`. */
  lemma {:induction false} KeepBestIndex(moves: seq<nat>, vs: seq<int>, best: Scored) returns (k: int)
    requires |vs| == |moves|
    decreases |moves|
    ensures k == -1 ==> KeepBest(moves, vs, best) == best
    ensures k != -1 ==>
      && 0 <= k < |moves|
      && KeepBest(moves, vs, best) == Scored(Some(moves[k]), vs[k])
      && best.score < vs[k]
      && forall j :: 0 <= j < k ==> vs[j] < vs[k]
  {
    k := -1;
    if moves != [] {
      var best' := Keep(true, Scored(Some(moves[0]), vs[0]), best);
      var k' := KeepBestIndex(moves[1..], vs[1..], best');
      if k' != -1 {
        k := k' + 1;
        assert moves[k] == moves[1..][k'] && vs[k] == vs[1..][k'];
        forall j | 0 < j < k
          ensures vs[j] < vs[k]
        {
          assert vs[j] == vs[1..][j - 1];
        }
      } else if best' != best {
        k := 0;
      }
    }
  }

  /** Started from the sentinel, the keep-the-better loop ends on the first
      best of the values, unless it kept the sentinel. */
  lemma KeepBestFirstBest(moves: seq<nat>, vs: seq<int>)
    requires |vs| == |moves|
    ensures var r := KeepBest(moves, vs, Initial(true));
      r == Initial(true) ||
      exists k :: 0 <= k < |moves| && r == Scored(Some(moves[k]), vs[k]) && FirstBestAt(moves, vs, moves[k])
  {
    KeepBestBounds(moves, vs, Initial(true));
    var k := KeepBestIndex(moves, vs, Initial(true));
    if k != -1 {
      assert FirstBestAt(moves, vs, moves[k]);
    }
  }

  /** The unpruned search of an unfinished board picks the first free cell
      whose value is the largest, and reports that value. */
  lemma PlainMinimaxFirstBest(g: Game, me: Player)
    requires |g.board| == Size && g.winner == None && NumEmptySquares(g.board) > 0
    ensures var r := PlainMinimax(g, me, me);
      && r.position.Some?
      && r.score == ChildValue(g, me, me, r.position.value)
      && FirstBestMove(g, me, AvailableMoves(g.board), r.position.value)
  {
    var moves := AvailableMoves(g.board);
    var vs := ChildValues(g, me, moves);
    var r := PlainSearch(g, me, me, moves, Initial(true));
    assert PlainMinimax(g, me, me) == r;
    assert r != Initial(true);
    PlainSearchKeepsBest(g, me, moves, Initial(true));
    KeepBestFirstBest(moves, vs);
    var k :| 0 <= k < |moves| && r == Scored(Some(moves[k]), vs[k]) && FirstBestAt(moves, vs, moves[k]);
  }

  /** The move the agent's search picks on an unfinished board is the first
      free cell, in ascending order, whose unpruned value is the best, and
      the score reported is that value. */
  lemma AgentPicksFirstBestMove(g: Game, me: Player)
    requires |g.board| == Size && g.winner == None && NumEmptySquares(g.board) > 0
    ensures var r := Minimax(g, me, me, -Inf, Inf);
      && r.position.Some?
      && r.score == ChildValue(g, me, me, r.position.value)
      && FirstBestMove(g, me, AvailableMoves(g.board), r.position.value)
  {
    AlphaBetaAgreesAtRoot(g, me);
    PlainMinimaxFirstBest(g, me);
  }
}
