# Tic-tac-toe engine with an alpha-beta agent, in Dafny

This project models the game engine in `Tictactoe.py`. It has three parts.

- **Board rules** (`board.dfy`, module `Board`). The 3x3 board is a `seq<Cell>` of nine cells numbered 0..8 row by row. A cell is `Empty` or `Mark(X)`/`Mark(O)`. The board is paired with an `Option<Player>` winner. The module covers the free-cell list, the count of free cells, placing a mark, and the local win test that looks only at the lines around the last move. It also covers taking a trial move back and the tie test. A global `Wins` predicate over the eight winning lines gives the win test an independent meaning.
- **Search agent** (`search.dfy`, `pruning.dfy`, `agent.dfy`).
  - `Search.Minimax` is the recursive minimax with alpha-beta pruning. It mirrors the program's loop: try each free cell in ascending order, score the reply, keep a strictly better candidate, tighten alpha or beta, and stop once alpha >= beta.
  - `Search.PlainMinimax` is the same search without pruning. It serves as the reference.
  - `Pruning` proves that alpha-beta is fail-soft for every window. With the full window the agent uses, it returns exactly the unpruned result: the first free cell, in ascending order, with the best unpruned value.
  - `Agent.MinimaxInPlace` threads the one shared board through the recursion, with each trial move played and undone. It proves that the caller gets the board back unchanged.
  - `Agent.GetMove` is the agent's move choice, including the random opening.
- **Turn loop** (`turns.dfy`, module `Turns`). `play_game` becomes a state machine, `Awaiting(game, side)` / `Finished(game, outcome)`. X (the human) moves first and O is the agent. The module proves the invariant of every reached state and that the game ends within nine turns.

Scores are integers. The program's `-math.inf`/`math.inf` starting values become `Search.Inf = 100`. Every real score lies in [-10, 10], so every comparison against a starting value comes out the same as with the infinities.

The code has these behaviours worth knowing. The model keeps the last two and excludes the first (see "## Left out"):
- `make_move` does not check the range of `position`. An index of 9 or more, or of -10 or less, raises `IndexError`; -1..-9 wrap around to the cells counted from the end. Positions are `nat` in the model (so no negative index), and every member requires `position < 9`.
- `play_game` ignores the boolean that `make_move` returns. A turn that names an occupied cell leaves the board as it is and passes the turn to the other side (`Turns.OccupiedCellPassesTurn`). Both move providers only ever return free cells, so this does not happen in play.
- For every even position, `check_win` examines both diagonals. For 0, 2, 6 and 8 this includes the diagonal that does not pass through the played cell (`Board.CornerSeesOtherDiagonal`). `Board.CheckWinLines` states exactly which lines are examined. `Board.CheckWinAfterMove` shows the extra diagonal cannot matter in play: if the mover had no line before, the local test succeeds exactly when the mover now owns a line somewhere on the board.

## Model

| member | source | states |
|---|---|---|
| Board.AvailableMoves | Tictactoe.py:28-30 | the result holds exactly the indices of the empty cells, each in range, in strictly ascending order (hence without duplicates) |
| Board.NumEmptySquaresCounts | Tictactoe.py:205-206 | the free-cell count `NumEmptySquares` (the length of the free-cell list) equals the number of `Empty` cells on the board, is at most the board size, and is zero exactly when no cell is empty |
| Board.CheckWin | Tictactoe.py:41-64 | the local test around `position`, built from a row slice and cell triples, succeeds iff the line table's row of `position`, its column, or (for an even `position` only) one of the two diagonals is entirely the player's |
| Board.NewGame | Tictactoe.py:7-9 | a new game has nine empty cells and no winner |
| Board.Opponent | Tictactoe.py:128 | the side that moves next is always the other symbol |
| Board.MakeMove | Tictactoe.py:32-39 | on an occupied cell it reports failure and the game is unchanged; on a free cell it reports success, the cell holds the mover's mark, every other cell is unchanged, and the winner becomes the mover when the local test succeeds and otherwise stays as it was |
| Board.MoveDecrements | Tictactoe.py:123 | a trial move on a free cell leaves exactly one free cell fewer, so each recursive search call has fewer free cells |
| Board.PlaceDecrements | Tictactoe.py:34-35 | filling a free cell with a mark lowers the free-cell count by one |
| Board.CheckWinLines | Tictactoe.py:41-64 | the local test succeeds iff one of its examined lines is entirely the player's: the row of the position, its column, and both diagonals exactly when the position is even (1, 3, 5, 7 never look at a diagonal) |
| Board.ExaminedLines | Tictactoe.py:44-62 | the lines examined for a position are its row `p / 3`, its column `p % 3`, and the two diagonals for even `p` |
| Board.CheckWinSound | Tictactoe.py:41-64 | every win the local test reports is a complete line on the board |
| Board.CheckWinAfterMove | Tictactoe.py:34-37 | if the mover owned no line before playing a free cell, the local test around that cell succeeds iff the mover now owns a line anywhere on the board |
| Board.MoveKeepsOpponentLines | Tictactoe.py:34-35 | placing a mark never completes a line of the other side |
| Board.MakeMoveDecidesWinner | Tictactoe.py:32-39 | in a game without a recorded winner in which the mover owns no line yet, a successful move records the mover as winner iff the mover now owns a complete line, and otherwise leaves no winner |
| Board.Undo | Tictactoe.py:134-135 | taking a trial move back empties that cell, clears the winner and changes no other cell |
| Board.UndoRestores | Tictactoe.py:123-135 | playing a free cell of a game without a winner and then taking it back gives back exactly the original board and winner |
| Board.IsTie | Tictactoe.py:66-68 | a tie holds iff there are no free cells (no available moves) and no winner is recorded |
| Board.TopRowScenario | Tictactoe.py:32-39 | on `X X _ / O O _ / _ _ _`, X playing cell 2 succeeds and makes X the winner, and playing cell 2 again is refused |
| Board.CornerSeesOtherDiagonal | Tictactoe.py:56-62 | a move at the corner 0 also wins on a full 2-4-6 diagonal, a line that does not pass through cell 0 |
| Search.TerminalScoreMeaning | Tictactoe.py:108-113 | the search stops exactly on a board with a winner or without an empty cell; a score of 0 means a tie, a positive score a win of the agent's symbol, a negative one a win of the other, and every leaf score is bounded by the board size plus one |
| Search.Minimax | Tictactoe.py:106-152 | a won game scores +(free cells + 1) for the agent's symbol and -(free cells + 1) for the other, a full board without winner scores 0, and an unfinished game yields a position from the available moves with a score bounded by the free-cell count, and every score lies in [-10, 10]; termination is by the free-cell count |
| Search.SearchMoves | Tictactoe.py:122-152 | the loop returns its starting best or a candidate from the moves tried with a bounded score; starting from the sentinel with at least one move it always returns a real move; the maximizer's result never falls below, and the minimizer's never rises above, the best so far |
| Search.PlainMinimax | Tictactoe.py:106-152 | reference search without pruning: same leaf scores, every score bounded by the free-cell count plus one |
| Search.PlainSearch | Tictactoe.py:122-147 | the unpruned loop over every move, keeping strictly better candidates, with the same bounds as the pruned loop |
| Pruning.MinimaxFailSoft | Tictactoe.py:106-152 | for every window alpha < beta inside the sentinels, the pruned score r and the true value v satisfy: r <= alpha implies v <= r, alpha < r < beta implies v == r, and r >= beta implies v >= r |
| Pruning.MaxLoopFailSoft | Tictactoe.py:139-150 | the maximizing loop keeps the fail-soft relation, raising alpha to the best score and cutting off once alpha >= beta |
| Pruning.MinLoopFailSoft | Tictactoe.py:143-150 | the minimizing loop keeps the fail-soft relation, lowering beta to the best score and cutting off once alpha >= beta |
| Pruning.RootLoopAgrees | Tictactoe.py:116-150 | at the agent's own call the window stays (best, Inf), and the pruned loop keeps the same candidate as the unpruned loop at every step |
| Pruning.AlphaBetaAgreesAtRoot | Tictactoe.py:103-152 | alpha-beta with the starting window returns the same position and score as the search without pruning, on every board |
| Pruning.PlainSearchKeepsBest | Tictactoe.py:122-141 | the unpruned maximizing loop is the keep-the-strictly-better loop over the children's values in move order |
| Pruning.KeepBestBounds | Tictactoe.py:139-141 | the keep-the-strictly-better loop never returns less than its starting best, and no value exceeds its result |
| Pruning.KeepBestIndex | Tictactoe.py:139-141 | because the comparison is strict, the loop returns either its starting best or the candidate at some index k that beats the starting best and every earlier value |
| Pruning.KeepBestFirstBest | Tictactoe.py:117-141 | started from the sentinel, the loop returns the sentinel or the first move, in order, whose value is the largest, with that value |
| Pruning.PlainMinimaxFirstBest | Tictactoe.py:116-152 | on an unfinished board the unpruned search returns the first free cell whose value is the largest, with that value as score |
| Pruning.AgentPicksFirstBestMove | Tictactoe.py:103-152 | on an unfinished board the agent's search returns a free cell, namely the first one in ascending order whose unpruned value is the best, and reports that value |
| Agent.MinimaxInPlace | Tictactoe.py:122-152 | with one shared board on which each trial move is played, searched and undone, the board handed back equals the board received, and the result equals the alpha-beta search |
| Agent.TryMove | Tictactoe.py:123-135 | playing a free cell on the shared board, searching the reply and resetting the cell and the winner hands the board back unchanged and yields the alpha-beta value of the position after the move |
| Agent.GetMove | Tictactoe.py:97-104 | the move is a free cell; an unfinished game always yields a move; except on the empty board (where any free cell may be chosen) it is the first free cell with the best unpruned value |
| Turns.StartConsistent | Tictactoe.py:162-168 | the starting state, empty board with X to move, satisfies the loop invariant |
| Turns.Step | Tictactoe.py:174-194 | a played turn leaves the named cell occupied; the game continues only with the other side to move, no winner and a free cell; from a state with no recorded winner, it ends only with the mover as winner (recorded on the board) or as a tie on a board without an empty cell; a finished state stays as it is |
| Turns.StepPreserves | Tictactoe.py:170-194 | a turn with a free cell keeps the invariant (no line while waiting, mark counts alternate, a win is a real line of the winner, a tie is a full board without any line) and either ends the game or passes the turn with one free cell fewer |
| Turns.OccupiedCellPassesTurn | Tictactoe.py:181-194 | a turn naming an occupied cell leaves the board as it was and passes the turn to the other side |
| Turns.PlayGame | Tictactoe.py:155-194 | with a human who always names a free cell and the agent as O, the loop ends after at most nine turns in a finished state: a winner owning a real line, or a full board on which nobody owns a line |

## Left out

- Console output: `show_board`, `show_numbered_board` and every message printed by `play_game`.
- `HumanPlayer.get_move`: its `input` loop and `ValueError` handling are interactive. The human is a parameter of `Turns.PlayGame`, a function that always names a free cell.
- The "play again" recursion at the end of `play_game`: it starts a new game on a fresh board after user input.
- `random.choice` in `AIPlayer.get_move`: it becomes a nondeterministic choice among the free cells.
- IEEE infinities: they are replaced by the integer sentinel `Search.Inf = 100`.
- Positions outside 0..8: the code raises `IndexError` for 9 and above and for -10 and below, and wraps -1..-9 around. For a wrapped position `check_win` also runs with the negative value: for -1..-3 the row slice is empty, so every such move is recorded as a win; for -2, -4, -6 and -8 the parity test lets the odd cells 7, 5, 3 and 1 examine both diagonals. The `nat` type of positions excludes negative values and every member requires `position < 9`.
- Symbols other than `'X'` and `'O'` passed to `make_move`: the model's `Player` type has only the two marks.
- The claim that the agent never loses (perfect play from the empty board is a draw): proving it needs the value of the whole game tree, which is far beyond what the verifier can evaluate.
- `chatbot.py`, `movie_recommender/recommend.py` and `Face detector/detector.py` are not part of this model. They pick random replies, call pandas/sklearn, or wrap a face-detection library.
