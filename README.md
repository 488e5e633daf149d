# Tic-tac-toe against a minimax computer player

This project models the game logic of a browser tic-tac-toe game. A human (X)
plays against the computer (O), and the computer picks its moves by an
exhaustive minimax search without pruning. The page, the click wiring and the
status line are left out. What remains is modelled in three modules:

- `Evaluator` (evaluator.dfy): the nine cells, the eight winning patterns and
  the win check. The win check is proved equal to an independent "three in a
  row" definition over rows, columns and diagonals. It is also proved unchanged
  by a quarter turn and by a left-right mirror of the board, which together
  generate every symmetry of the square.
- `Search` (search.dfy): the minimax search. `MinimaxValue` is a pure
  specification over board values. It keeps the source's structure:
  - the empty cells are listed in ascending order;
  - the terminal checks come in a fixed order (X win -10, O win 10, full board 0);
  - each candidate is scored by the other player's search;
  - the first candidate with the strictly best score is kept.

  `Minimax` is the imperative search over the shared `array<Cell>`. Every
  trial move is written into the array and reset to empty afterwards. The
  method is proved to leave the array as it found it and to return exactly
  `MinimaxValue` of the input. Its loop over the empty cells is the method
  `ScoreMoves`, and its selection scan is `ChooseBest`. Lemmas prove the
  properties of the result:
  - the score is one of -10, 0 and 10;
  - the chosen cell was empty;
  - the choice is best for the mover (O maximises, X minimises);
  - every empty cell with a lower index scores strictly worse;
  - an immediate win is always valued as a win;
  - a board where X threatens two cells at once and O cannot win at once is
    valued -10, since every O move loses.

  Recursion ends because every trial move leaves one fewer empty cell.
- `Game` (game.dfy): the session state (board, player to move, active flag,
  outcome) as the class `TicTacToe`, whose methods mirror the click handler,
  the computer's move and the restart. Each method is tied to a pure
  transition on `Session` values. Lemmas prove that every turn keeps the
  session in a legal state:
  - X is to move on a board still in play, with as many Xs as Os;
  - or the game is over, and the reported outcome matches the board.

The status-line texts are abstracted to `Outcome`: `InProgress` for the empty
text, "Computer's turn..." and "Your turn"; `Won(X)` for "Player X wins!";
`Won(O)` for "Computer wins!"; `Draw` for "It's a draw!".

## Model

| member | source | states |
|---|---|---|
| `Evaluator.Other` | script.js:89-95 | the search hands the turn to the other mark: X after O and O after X |
| `Evaluator.CheckWinIsThreeInARow` | script.js:64-68 | the win check holds iff some row, column or diagonal of the grid is entirely the given mark |
| `Evaluator.CheckWinRotation` | script.js:10-14 | the eight patterns are closed under a quarter turn: rotating the board does not change whether a mark has won |
| `Evaluator.CheckWinMirror` | script.js:10-14 | the eight patterns are closed under a left-right mirror, so mirroring does not change whether a mark has won; with the quarter turn this covers every symmetry of the square |
| `Evaluator.WriteOffLineKeepsWin` | script.js:64-68 | overwriting a cell that does not hold the mark keeps every line the mark already has |
| `Evaluator.PlaceKeepsOtherWinless` | script.js:30-38 | a move by one mark never completes a line for a different mark, so checking only the mover after a move misses no win |
| `Evaluator.EmptyBoardNoWin` | script.js:5 | nobody has a line on the empty starting board |
| `Evaluator.CountUpdate` | script.js:84-97 | writing a mark into an empty cell leaves exactly one empty cell fewer; resetting it restores the count (the search's termination measure) |
| `Evaluator.FullIffNoEmpty` | script.js:34 | "every cell is non-empty" holds exactly when the count of empty cells is zero |
| `Search.Avail` | script.js:73-75 | the available spots are exactly the empty cells, strictly ascending, as many as there are empty cells |
| `Search.FirstBest` | script.js:102-119 | the selected candidate has a score no other candidate beats for the mover, and every earlier candidate scores strictly worse (first occurrence wins ties) |
| `Search.ChooseBest` | script.js:103-118 | the selection loop with a strict comparison and a sentinel below (O) or above (X) every score returns the first best candidate |
| `Search.MinimaxValue` | script.js:71-121 | the score is -10, 0 or 10; a move index is returned exactly when the board is not terminal, and it names an empty cell |
| `Search.Candidates` | script.js:83-99 | one move per available spot, in spot order, each carrying that spot as its index and a score in {-10, 0, 10} |
| `Search.CandidateAt` | script.js:86-95 | each candidate's score is the other player's search on the board with that cell played |
| `Search.CandidatesExtend` | script.js:96-98 | scoring the next spot appends one move to the moves collected so far |
| `Search.TerminalScores` | script.js:77-80 | an X win scores -10, else an O win scores 10, else a full board scores 0, none with a move index, so a full board with a winner gets the win score |
| `Search.TerminalIff` | script.js:73-80 | the search stops exactly on a board with a win for either mark or with no empty cell |
| `Search.ChoiceIsFirstOptimal` | script.js:101-120 | on a board in play the chosen cell is empty and scored by the opponent's search; no empty cell scores better for the mover; every empty cell of lower index scores strictly worse |
| `Search.WinInOne` | script.js:87-94 | when the mover can complete a line at once, the board is scored as a win for the mover (10 for O, -10 for X) |
| `Search.ForkSurvives` | script.js:84-95 | after O plays any empty cell of a board where X threatens two cells, X has not won, the board is not full, and X still has a cell that completes a line |
| `Search.ForkChildLoses` | script.js:89-91 | every such O move is scored -10 by X's search |
| `Search.ForkLoses` | script.js:101-120 | when X threatens two different cells and no O move wins at once, every O move loses and the board is scored -10 |
| `Search.Minimax` | script.js:71-121 | the array is the same after the search as before, and the result is the minimax move of the input board |
| `Search.ScoreMoves` | script.js:83-99 | every trial placement is undone, so the array is unchanged, and the collected moves are the candidates of the input board |
| `Game.ClickLeavesPlay` | script.js:30-42 | when a click hands the turn to O, the board is not terminal, so the search returns a move |
| `Game.ClickKeepsInv` | script.js:23-43 | a click on a legal state leaves a legal state, or hands the turn to O with one X more than Os on a board in play |
| `Game.ReplyKeepsInv` | script.js:46-61 | the computer's move leads back to a legal state: a finished game or X to move |
| `Game.TurnKeepsInv` | script.js:23-61 | a click followed by the computer's reply keeps the session legal |
| `Game.TurnEffect` | script.js:23-61 | a click is ignored when the game is over or the cell is taken. Otherwise X is placed; an X line or a full board ends the game before the computer moves. Only otherwise does O play the searched cell, which was empty, after which the game ends on an O line or a full board, or X moves again |
| `Game.HumanWinEndsGame` | script.js:25-33 | with X on cells 0 and 1 and cell 2 empty, a click on 2 reports an X win and ends the game with no computer move |
| `Game.InitialInv` | script.js:5-7 | the starting state (empty board, X to move, game active) is legal, and its board is not full |
| `Game.TicTacToe.constructor` | script.js:5-7 | the page starts with an empty board, X to move and the game active |
| `Game.TicTacToe.HandleCellClick` | script.js:23-43 | the new state is the click transition followed, when the turn passed to O, by the computer's reply; the session stays legal |
| `Game.TicTacToe.ComputerMove` | script.js:46-61 | O is written into the cell the search selects on the live board; the outcome is an O win, a draw, or X to move |
| `Game.TicTacToe.RestartGame` | script.js:123-129 | a fresh empty board, X to move, the game active, a legal state |

## Left out

- The page itself is not modelled: looking up the cells, the status element
  and the restart button, wiring the click listeners, and writing text into
  cells. Status texts become the `Outcome` value.
- Game.TicTacToe.HandleCellClick: the 500 ms timer before the computer moves
  is modelled as an immediate call. The model therefore does not capture that
  clicks are still accepted during that window. Such a click would be placed
  with the current player, which is then O. It also does not capture that a
  restart during the window would not cancel the pending move.
- Game.TicTacToe.ComputerMove: requires a board that is not terminal. On a
  terminal board the search returns no index, and the page would then fail
  writing to an undefined cell. That only happens through the timer window
  above.
- The sentinels minus infinity and infinity in the selection scan are the
  integers -11 and 11. Every score is proved to lie in {-10, 0, 10}, so the
  scan behaves the same.
- The `data-index` attribute string and its coercion to a number are not
  modelled. A click takes an index below 9.
- The win check accepts any cell value, as the source does, but the search
  and the game only ask it about X and O.
- The value of the empty board (a draw under optimal play) is not proved. The
  same holds for the claim that two optimal players always draw after nine
  moves. Both would need the verifier to evaluate the whole game tree of
  about 9! positions.
- Search.WinInOne: proves only that the score is a win. The selected cell is
  not necessarily the immediately winning one. Scores are not discounted by
  depth, so a lower-index cell that wins later also scores 10 and is chosen
  first.
