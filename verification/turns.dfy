/**
  The turn loop: the human (X) and the agent (O) move in turn, X first,
  until a move wins or fills the board.
 */
module Turns {
  import opened Wrappers
  import opened Board
  import opened Agent

  datatype Outcome = Winner(p: Player) | Tie

  datatype State = Awaiting(game: Game, side: Player) | Finished(game: Game, outcome: Outcome)

  function Start(): State {
    Awaiting(NewGame(), X)
  }

  /** One turn: play `move` for the side to move (the result of the move is
      not looked at), then stop on a winner or a tie, else pass the turn. */
  function Step(s: State, move: nat): (r: State)
    requires s.Awaiting? ==> |s.game.board| == Size && move < Size
    ensures s.Finished? ==> r == s
    ensures s.Awaiting? ==> |r.game.board| == Size && r.game.board[move] != Empty
    ensures r.Awaiting? ==>
      && s.Awaiting? && r.side == Opponent(s.side)
      && r.game.winner == None && Empty in r.game.board
    ensures s.Awaiting? && r.Finished? && r.outcome.Winner? ==> r.game.winner == Some(r.outcome.p)
    ensures s.Awaiting? && s.game.winner == None && r.Finished? ==>
      || r.outcome == Winner(s.side)
      || (r.outcome == Tie && Empty !in r.game.board)
  {
    match s
    case Finished(_, _) => s
    case Awaiting(g, side) =>
      var g' := MakeMove(g, move, side).game;
      if g'.winner.Some? then Finished(g', Winner(g'.winner.value))
      else if IsTie(g') then Finished(g', Tie)
      else Awaiting(g', Opponent(side))
  }

  /** What holds of every state the loop reaches with legal moves: while
      waiting nobody owns a line, a cell is free and X has moved once more
      than O exactly when O is to move; a win is a real line of the winner;
      a tie is a full board on which nobody owns a line. */
  predicate Consistent(s: State) {
    |s.game.board| == Size &&
    match s
    case Awaiting(g, side) =>
      && g.winner == None && !Wins(g.board, X) && !Wins(g.board, O)
      && NumEmptySquares(g.board) > 0
      && multiset(g.board)[Mark(X)] == multiset(g.board)[Mark(O)] + (if side == X then 0 else 1)
    case Finished(g, Winner(p)) => g.winner == Some(p) && Wins(g.board, p)
    case Finished(g, Tie) =>
      g.winner == None && NumEmptySquares(g.board) == 0 && !Wins(g.board, X) && !Wins(g.board, O)
  }

  lemma NoLineOnEmptyBoard(s: Player)
    ensures !Wins(NewGame().board, s)
  {
    var b := NewGame().board;
    forall k | 0 <= k < |Lines|
      ensures !LineFull(b, Lines[k], s)
    {
      LineCellsOnBoard(k);
      assert b[Lines[k][0]] == Empty;
    }
  }

  lemma StartConsistent()
    ensures Consistent(Start())
  {
    NoLineOnEmptyBoard(X);
    NoLineOnEmptyBoard(O);
    assert multiset(NewGame().board)[Mark(X)] == 0 by {
      assert Mark(X) !in NewGame().board;
    }
    assert multiset(NewGame().board)[Mark(O)] == 0 by {
      assert Mark(O) !in NewGame().board;
    }
  }

  /** Playing a free cell for `side` adds one mark of `side` and leaves the
      other side's marks as they were. */
  lemma MarkCounts(b: seq<Cell>, p: nat, side: Player)
    requires p < |b| && b[p] == Empty
    ensures multiset(b[p := Mark(side)])[Mark(side)] == multiset(b)[Mark(side)] + 1
    ensures multiset(b[p := Mark(side)])[Mark(Opponent(side))] == multiset(b)[Mark(Opponent(side))]
  {
    assert multiset(b[p := Mark(side)]) == multiset(b) - multiset{Empty} + multiset{Mark(side)};
  }

  /** A legal move keeps the loop's invariant and either ends the game or
      frees one cell fewer and passes the turn. */
  lemma StepPreserves(s: State, move: nat)
    requires Consistent(s)
    requires s.Awaiting? ==> move < Size && s.game.board[move] == Empty
    ensures Consistent(Step(s, move))
    ensures s.Awaiting? && Step(s, move).Awaiting? ==>
      && Step(s, move).side == Opponent(s.side)
      && NumEmptySquares(Step(s, move).game.board) == NumEmptySquares(s.game.board) - 1
  {
    if s.Awaiting? {
      var g, side := s.game, s.side;
      var g' := MakeMove(g, move, side).game;
      assert g'.board == g.board[move := Mark(side)];
      MakeMoveDecidesWinner(g, move, side);
      MoveDecrements(g, move, side);
      MarkCounts(g.board, move, side);
      assert !Wins(g'.board, Opponent(side)) by {
        if Wins(g'.board, Opponent(side)) {
          MoveKeepsOpponentLines(g.board, move, side);
        }
      }
      var t := Step(s, move);
      if g'.winner.Some? {
        assert t == Finished(g', Winner(side));
      } else if IsTie(g') {
        assert t == Finished(g', Tie);
      } else {
        assert t == Awaiting(g', Opponent(side));
      }
    }
  }

  /** The loop does not re-ask on an occupied cell: the board stays as it
      was and the turn passes to the other side. */
  lemma OccupiedCellPassesTurn(s: State, move: nat)
    requires Consistent(s) && s.Awaiting?
    requires move < Size && s.game.board[move] != Empty
    ensures Step(s, move) == Awaiting(s.game, Opponent(s.side))
  {
  }

  /** The whole game with the human's choices given as `human`, which
      always names a free cell: it ends after at most nine turns, with a
      real line for the winner or a full board without any line. */
  method PlayGame(human: Game -> nat) returns (final: State, turns: nat)
    requires forall g: Game :: |g.board| == Size && NumEmptySquares(g.board) > 0 ==>
      human(g) < Size && g.board[human(g)] == Empty
    ensures final.Finished? && Consistent(final)
    ensures turns <= Size
  {
    var s := Start();
    StartConsistent();
    turns := 0;
    while s.Awaiting?
      invariant Consistent(s)
      invariant s.Awaiting? ==> turns + NumEmptySquares(s.game.board) == Size
      invariant turns <= Size
      decreases if s.Awaiting? then NumEmptySquares(s.game.board) else 0
    {
      var move: nat;
      if s.side == X {
        move := human(s.game);
      } else {
        var choice := GetMove(s.game, O);
        move := choice.value;
      }
      StepPreserves(s, move);
      s := Step(s, move);
      turns := turns + 1;
    }
    final := s;
  }
}
