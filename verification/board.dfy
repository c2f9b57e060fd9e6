/**
  The board rules of the game: a 3x3 grid numbered 0..8 row by row,
  the list of free cells, placing a mark, the local win test around the
  last move, and the tie test.
 */
module Board {
  import opened Wrappers

  datatype Player = X | O

  datatype Cell = Empty | Mark(owner: Player)

  /** The side that moves after `p`. */
  function Opponent(p: Player): (q: Player)
    ensures q != p
  {
    if p == X then O else X
  }

  const Size: nat := 9

  /** The board together with the recorded winner, if any. */
  datatype Game = Game(board: seq<Cell>, winner: Option<Player>)

  /** A fresh game: nine empty cells and no winner. */
  function NewGame(): (g: Game)
    ensures |g.board| == Size && g.winner == None
    ensures forall i :: 0 <= i < Size ==> g.board[i] == Empty
  {
    Game(seq(Size, _ => Empty), None)
  }

  // ---------------------------------------------------------------------
  // Free cells
  // ---------------------------------------------------------------------

  /** The indices j >= k with an empty cell, ascending. */
  function EmptiesFrom(b: seq<Cell>, k: nat): seq<nat>
    requires k <= |b|
    decreases |b| - k
  {
    if k == |b| then []
    else if b[k] == Empty then [k] + EmptiesFrom(b, k + 1)
    else EmptiesFrom(b, k + 1)
  }

  lemma {:induction false} EmptiesFromSpec(b: seq<Cell>, k: nat)
    requires k <= |b|
    decreases |b| - k
    ensures var r := EmptiesFrom(b, k);
      && |r| <= |b| - k
      && (forall i :: 0 <= i < |r| ==> k <= r[i] < |b| && b[r[i]] == Empty)
      && (forall j :: k <= j < |b| && b[j] == Empty ==> j in r)
      && (forall i, j :: 0 <= i < j < |r| ==> r[i] < r[j])
  {
    if k < |b| {
      EmptiesFromSpec(b, k + 1);
      var rest := EmptiesFrom(b, k + 1);
      if b[k] == Empty {
        var r := [k] + rest;
        assert forall i :: 1 <= i < |r| ==> r[i] == rest[i - 1];
      }
    }
  }

  /** Every empty cell's index, in ascending order, each exactly once. */
  function AvailableMoves(b: seq<Cell>): (r: seq<nat>)
    ensures |r| <= |b|
    ensures forall i :: 0 <= i < |r| ==> r[i] < |b| && b[r[i]] == Empty
    ensures forall j :: 0 <= j < |b| && b[j] == Empty ==> j in r
    ensures forall i, j :: 0 <= i < j < |r| ==> r[i] < r[j]
  {
    EmptiesFromSpec(b, 0);
    EmptiesFrom(b, 0)
  }

  lemma {:induction false} EmptiesFromCount(b: seq<Cell>, k: nat)
    requires k <= |b|
    decreases |b| - k
    ensures |EmptiesFrom(b, k)| == multiset(b[k..])[Empty]
  {
    if k < |b| {
      EmptiesFromCount(b, k + 1);
      var s, rest := b[k..], b[k + 1..];
      assert s == [b[k]] + rest;
      assert multiset(s)[Empty] == multiset{b[k]}[Empty] + multiset(rest)[Empty];
    }
  }

  /** The number of free cells, the length of the free-cell list. */
  function NumEmptySquares(b: seq<Cell>): nat {
    |AvailableMoves(b)|
  }

  /** The free-cell count is the number of `Empty` cells on the board. */
  lemma NumEmptySquaresCounts(b: seq<Cell>)
    ensures NumEmptySquares(b) == multiset(b)[Empty]
    ensures NumEmptySquares(b) <= |b|
    ensures NumEmptySquares(b) == 0 <==> Empty !in b
  {
    EmptiesFromCount(b, 0);
    assert b[0..] == b;
  }

  /** Filling a free cell removes exactly one free cell. */
  lemma PlaceDecrements(b: seq<Cell>, p: nat, c: Cell)
    requires p < |b| && b[p] == Empty && c != Empty
    ensures NumEmptySquares(b[p := c]) == NumEmptySquares(b) - 1
  {
    NumEmptySquaresCounts(b);
    NumEmptySquaresCounts(b[p := c]);
    assert multiset(b[p := c]) == multiset(b) - multiset{Empty} + multiset{c};
  }

  // ---------------------------------------------------------------------
  // Winning lines
  // ---------------------------------------------------------------------

  /** The eight winning lines: three rows, three columns, two diagonals. */
  const Lines: seq<seq<nat>> :=
    [[0, 1, 2], [3, 4, 5], [6, 7, 8],
     [0, 3, 6], [1, 4, 7], [2, 5, 8],
     [0, 4, 8], [2, 4, 6]]

  /** Every line names three cells of the board. */
  lemma LineCellsOnBoard(k: nat)
    requires k < |Lines|
    ensures |Lines[k]| == 3
    ensures forall i :: 0 <= i < 3 ==> Lines[k][i] < Size
  {
  }

  predicate LineFull(b: seq<Cell>, line: seq<nat>, s: Player) {
    forall i :: 0 <= i < |line| ==> line[i] < |b| && b[line[i]] == Mark(s)
  }

  /** `s` owns some complete line anywhere on the board (a global scan). */
  predicate Wins(b: seq<Cell>, s: Player) {
    exists k :: 0 <= k < |Lines| && LineFull(b, Lines[k], s)
  }

  /** The lines the local test looks at for a move at `p`: the lines
      through `p`, and for an even `p` both diagonals. */
  predicate Examined(p: nat, k: nat)
    requires k < |Lines|
  {
    p in Lines[k] || (p % 2 == 0 && k >= 6)
  }

  predicate AllAre(cells: seq<Cell>, s: Player) {
    forall i :: 0 <= i < |cells| ==> cells[i] == Mark(s)
  }

  /** The local win test: the row of `position`, its column, and the two
      diagonals when `position` is even. Its contract reads the same test
      off the line table. */
  function CheckWin(b: seq<Cell>, position: nat, s: Player): (r: bool)
    requires |b| == Size && position < Size
    ensures r <==>
      || LineFull(b, Lines[position / 3], s)
      || LineFull(b, Lines[3 + position % 3], s)
      || (position % 2 == 0 && (LineFull(b, Lines[6], s) || LineFull(b, Lines[7], s)))
  {
    RowColumnCells(b, position, s);
    var row := position / 3;
    var col := position % 3;
    AllAre(b[row * 3 .. (row + 1) * 3], s)
    || AllAre([b[col], b[col + 3], b[col + 6]], s)
    || (position % 2 == 0
        && (AllAre([b[0], b[4], b[8]], s) || AllAre([b[2], b[4], b[6]], s)))
  }

  /** The examined lines of `p` are its row, its column and, for an even
      `p`, the two diagonals. */
  lemma ExaminedLines(p: nat, k: nat)
    requires p < Size && k < |Lines|
    ensures Examined(p, k) <==> k == p / 3 || k == 3 + p % 3 || (p % 2 == 0 && k >= 6)
  {
    if k == 0 { assert Lines[k] == [0, 1, 2]; }
    else if k == 1 { assert Lines[k] == [3, 4, 5]; }
    else if k == 2 { assert Lines[k] == [6, 7, 8]; }
    else if k == 3 { assert Lines[k] == [0, 3, 6]; }
    else if k == 4 { assert Lines[k] == [1, 4, 7]; }
    else if k == 5 { assert Lines[k] == [2, 5, 8]; }
    else if k == 6 { assert Lines[k] == [0, 4, 8]; }
    else { assert Lines[k] == [2, 4, 6]; }
  }

  lemma TripleCells(b: seq<Cell>, i: nat, j: nat, k: nat, s: Player)
    requires i < |b| && j < |b| && k < |b|
    ensures LineFull(b, [i, j, k], s) <==> AllAre([b[i], b[j], b[k]], s)
  {
    var line, cells := [i, j, k], [b[i], b[j], b[k]];
    assert forall t :: 0 <= t < 3 ==> cells[t] == b[line[t]];
  }

  lemma RowColumnCells(b: seq<Cell>, p: nat, s: Player)
    requires |b| == Size && p < Size
    ensures LineFull(b, Lines[p / 3], s) <==> AllAre(b[p / 3 * 3 .. (p / 3 + 1) * 3], s)
    ensures LineFull(b, Lines[3 + p % 3], s) <==> AllAre([b[p % 3], b[p % 3 + 3], b[p % 3 + 6]], s)
    ensures LineFull(b, Lines[6], s) <==> AllAre([b[0], b[4], b[8]], s)
    ensures LineFull(b, Lines[7], s) <==> AllAre([b[2], b[4], b[6]], s)
  {
    var row := p / 3;
    var col := p % 3;
    assert b[row * 3 .. (row + 1) * 3] == [b[row * 3], b[row * 3 + 1], b[row * 3 + 2]];
    assert Lines[row] == [row * 3, row * 3 + 1, row * 3 + 2];
    assert Lines[3 + col] == [col, col + 3, col + 6];
    assert Lines[6] == [0, 4, 8] && Lines[7] == [2, 4, 6];
    TripleCells(b, row * 3, row * 3 + 1, row * 3 + 2, s);
    TripleCells(b, col, col + 3, col + 6, s);
    TripleCells(b, 0, 4, 8, s);
    TripleCells(b, 2, 4, 6, s);
  }

  /** The local test inspects exactly the examined lines of `position`. */
  lemma CheckWinLines(b: seq<Cell>, position: nat, s: Player)
    requires |b| == Size && position < Size
    ensures CheckWin(b, position, s) <==>
      exists k :: 0 <= k < |Lines| && Examined(position, k) && LineFull(b, Lines[k], s)
  {
    var row := position / 3;
    var col := position % 3;
    RowColumnCells(b, position, s);
    ExaminedLines(position, row);
    ExaminedLines(position, 3 + col);
    ExaminedLines(position, 6);
    ExaminedLines(position, 7);
    if CheckWin(b, position, s) {
      if LineFull(b, Lines[row], s) {
      } else if LineFull(b, Lines[3 + col], s) {
      } else if LineFull(b, Lines[6], s) {
      } else {
        assert LineFull(b, Lines[7], s);
      }
    }
    forall k | 0 <= k < |Lines| && Examined(position, k) && LineFull(b, Lines[k], s)
      ensures CheckWin(b, position, s)
    {
      ExaminedLines(position, k);
    }
  }

  /** A win reported by the local test is a real line on the board. */
  lemma CheckWinSound(b: seq<Cell>, position: nat, s: Player)
    requires |b| == Size && position < Size
    requires CheckWin(b, position, s)
    ensures Wins(b, s)
  {
    CheckWinLines(b, position, s);
  }

  /** When `s` had no line before playing the free cell `p`, the local test
      around `p` finds a line exactly when one exists anywhere on the board. */
  lemma CheckWinAfterMove(b: seq<Cell>, p: nat, s: Player)
    requires |b| == Size && p < Size && b[p] == Empty
    requires !Wins(b, s)
    ensures CheckWin(b[p := Mark(s)], p, s) <==> Wins(b[p := Mark(s)], s)
  {
    var b' := b[p := Mark(s)];
    CheckWinLines(b', p, s);
    forall k | 0 <= k < |Lines| && LineFull(b', Lines[k], s)
      ensures Examined(p, k)
    {
      LineAwayFromMove(b, p, s, k);
    }
  }

  /** A line that does not pass through `p` is full after playing `p`
      only if it was full before. */
  lemma LineAwayFromMove(b: seq<Cell>, p: nat, s: Player, k: nat)
    requires |b| == Size && p < Size && k < |Lines|
    requires LineFull(b[p := Mark(s)], Lines[k], s)
    ensures p !in Lines[k] ==> LineFull(b, Lines[k], s)
  {
  }

  /** Playing for `s` never completes a line of the other side. */
  lemma MoveKeepsOpponentLines(b: seq<Cell>, p: nat, s: Player)
    requires |b| == Size && p < Size
    requires Wins(b[p := Mark(s)], Opponent(s))
    ensures Wins(b, Opponent(s))
  {
    var k :| 0 <= k < |Lines| && LineFull(b[p := Mark(s)], Lines[k], Opponent(s));
    assert LineFull(b, Lines[k], Opponent(s));
  }

  // ---------------------------------------------------------------------
  // Moves
  // ---------------------------------------------------------------------

  datatype MoveResult = MoveResult(game: Game, placed: bool)

  /** Places `s` on a free cell and records `s` as winner when the local
      test succeeds; an occupied cell is refused and nothing changes. */
  function MakeMove(g: Game, position: nat, s: Player): (r: MoveResult)
    requires |g.board| == Size && position < Size
    ensures r.placed <==> g.board[position] == Empty
    ensures !r.placed ==> r.game == g
    ensures |r.game.board| == Size
    ensures r.placed ==> r.game.board[position] == Mark(s)
    ensures forall i :: 0 <= i < Size && i != position ==> r.game.board[i] == g.board[i]
    ensures r.placed && CheckWin(r.game.board, position, s) ==> r.game.winner == Some(s)
    ensures r.placed && !CheckWin(r.game.board, position, s) ==> r.game.winner == g.winner
  {
    if g.board[position] == Empty then
      var board := g.board[position := Mark(s)];
      var winner := if CheckWin(board, position, s) then Some(s) else g.winner;
      MoveResult(Game(board, winner), true)
    else
      MoveResult(g, false)
  }

  /** Playing a free cell leaves one free cell fewer. */
  lemma MoveDecrements(g: Game, position: nat, s: Player)
    requires |g.board| == Size && position < Size && g.board[position] == Empty
    ensures NumEmptySquares(MakeMove(g, position, s).game.board) == NumEmptySquares(g.board) - 1
  {
    assert MakeMove(g, position, s).game.board == g.board[position := Mark(s)];
    PlaceDecrements(g.board, position, Mark(s));
  }

  /** In a game nobody has won yet, a successful move records `s` as the
      winner exactly when `s` now owns a complete line. */
  lemma MakeMoveDecidesWinner(g: Game, position: nat, s: Player)
    requires |g.board| == Size && position < Size && g.board[position] == Empty
    requires g.winner == None && !Wins(g.board, s)
    ensures MakeMove(g, position, s).game.winner == Some(s) <==>
      Wins(MakeMove(g, position, s).game.board, s)
    ensures MakeMove(g, position, s).game.winner != Some(s) ==>
      MakeMove(g, position, s).game.winner == None
  {
    CheckWinAfterMove(g.board, position, s);
    assert MakeMove(g, position, s).game.board == g.board[position := Mark(s)];
  }

  /** Takes a trial move back: the cell becomes free and the winner is cleared. */
  function Undo(g: Game, position: nat): (r: Game)
    requires position < |g.board|
    ensures r.winner == None
    ensures |r.board| == |g.board| && r.board[position] == Empty
    ensures forall i :: 0 <= i < |g.board| && i != position ==> r.board[i] == g.board[i]
  {
    Game(g.board[position := Empty], None)
  }

  /** Playing a free cell of a game without a winner and then undoing it
      gives back the very same game. */
  lemma UndoRestores(g: Game, position: nat, s: Player)
    requires |g.board| == Size && position < Size && g.board[position] == Empty
    requires g.winner == None
    ensures Undo(MakeMove(g, position, s).game, position) == g
  {
    var u := Undo(MakeMove(g, position, s).game, position);
    assert u.board == g.board;
  }

  /** A full board without a recorded winner. */
  predicate IsTie(g: Game)
    ensures IsTie(g) <==> NumEmptySquares(g.board) == 0 && g.winner == None
    ensures IsTie(g) <==> AvailableMoves(g.board) == [] && g.winner == None
  {
    NumEmptySquaresCounts(g.board);
    Empty !in g.board && g.winner == None
  }

  /** A move at the corner 0 also looks at the diagonal 2-4-6, which does
      not pass through it. */
  lemma CornerSeesOtherDiagonal()
    ensures var b := [Empty, Empty, Mark(X), Empty, Mark(X), Empty, Mark(X), Empty, Empty];
      0 !in Lines[7] && CheckWin(b, 0, X)
  {
  }

  /** X X _ / O O _ / _ _ _ : X completing the top row wins, and the
      same cell cannot be played twice. */
  lemma TopRowScenario()
    ensures var g := Game([Mark(X), Mark(X), Empty, Mark(O), Mark(O), Empty, Empty, Empty, Empty], None);
      var r := MakeMove(g, 2, X);
      r.placed && r.game.winner == Some(X) && !MakeMove(r.game, 2, X).placed
  {
    var g := Game([Mark(X), Mark(X), Empty, Mark(O), Mark(O), Empty, Empty, Empty, Empty], None);
    var b := MakeMove(g, 2, X).game.board;
    assert b[0..3] == [Mark(X), Mark(X), Mark(X)];
  }
}
