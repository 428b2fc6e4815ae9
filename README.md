# Tic-tac-toe against a minimax computer opponent

This project models a browser tic-tac-toe game in Dafny. The human plays X
and the computer plays O. After each human move the computer picks its
reply by an exhaustive minimax search of the game tree.

The model has five modules:

- `Board` (board.dfy): three-valued cells, a 9-cell board, and the count of
  empty cells. That count is the termination measure of the search.
- `Evaluator` (evaluator.dfy): `checkWinner` over the eight win lines and
  `isDraw` ("no empty cell"). Both are pure predicates.
- `Search` (search.dfy): `minimax` and `getBestMove`.
  - Both are imperative methods on the shared `array<Cell>`. Like the
    script, they try a symbol in a cell, recurse, and undo the write.
  - Each is proved against a recursive specification function: `Score`
    for minimax, `BestMove` for the first move of greatest value.
  - The script's `-Infinity`/`Infinity` seeds are the datatype `Ext`.
- `Turns` (turns.dfy): the global game state as a class `Game`, holding
  the cells, `currentPlayer`, `gameActive` and the status line (an enum).
  `onCellClick`, `computerMove`, `createBoard` and `resetGame` are its
  methods. The invariant `Valid()` says that while the game is on:
  - X is to move;
  - nobody has a line;
  - some cell is empty;
  - X and O have been played equally often.
- `Scenarios` (scenarios.dfy): concrete positions. They show the
  computer completing its own line and blocking the human's.

Scores follow the script:

- A board where O has a line scores `10 - depth`.
- A board where X has a line scores `depth - 10`.
- A full board with no line scores 0.
- Otherwise the score is the maximum (O to move) or minimum (X to move)
  over the empty cells.
- O's line is tested before X's.

## Model

| member | source | states |
|---|---|---|
| Evaluator.CheckWinnerLines | script.js:116-126 | `checkWinner(p)` holds exactly when one of the eight listed triples (three rows, three columns, two diagonals) holds `p` in all three cells |
| Evaluator.IsDrawIffNoEmptyCell | script.js:128-130 | `isDraw` holds exactly when the number of empty cells is zero |
| Evaluator.PlaceKeepsOthersLines | script.js:116-126 | writing a symbol other than `p` into an empty cell never gives `p` a winning line it did not already have |
| Board.PlaceUsesEmptyCell | script.js:76-79 | filling an empty cell lowers the number of empty cells by exactly one, which is why the recursion of minimax ends |
| Search.Mover | script.js:77 | the maximizing side writes O and the minimizing side X; either way a real symbol, never an empty cell |
| Search.SeqMax | script.js:74-83 | the maximum over a non-empty list of child scores is one of them and no child score exceeds it |
| Search.SeqMin | script.js:85-94 | the minimum over a non-empty list of child scores is one of them and no child score is below it |
| Search.ChildScores | script.js:75-82 | the first `n` cells contribute exactly one child score per empty cell |
| Search.ChildScoreIncluded | script.js:75-82 | every empty cell's child score appears among the child scores |
| Search.ChildScoreOrigin | script.js:75-82 | every child score comes from some empty cell |
| Search.ScoreRules | script.js:68-96 | O's line gives `10 - depth` (tested first), X's line `depth - 10`, a full board 0; otherwise the score is reached by some empty cell and bounds every empty cell's child score from above when maximizing and from below when minimizing |
| Search.ScoreBounds | script.js:69-71 | on a reachable board (depth plus empty cells at most 10) the score lies in `[depth - 10, 10 - depth]`, and strictly inside it on a non-terminal board |
| Search.AccumulatedSkip | script.js:76 | an occupied cell leaves the running maximum/minimum unchanged |
| Search.AccumulatedStep | script.js:80 | folding one more child score into the running maximum (`Math.max`) or minimum (`Math.min`) keeps it equal to the extreme of the scores seen so far, starting from `-Infinity`/`Infinity` |
| Search.AccumulatedFinal | script.js:83 | after all nine cells of a non-terminal board, the accumulator is finite and equals the score |
| Search.Minimax | script.js:68-96 | the method returns `Score` of the board it was given and leaves every cell as it found it |
| Search.ScanChoosesFirstBest | script.js:102-112 | after scanning the first `n` cells, the chosen index is -1 exactly when none of them is empty; otherwise it is an empty cell of greatest value, every earlier empty cell has a strictly smaller value, and the kept value is that cell's value |
| Search.BestMove | script.js:98-114 | the chosen move is -1 exactly on a full board, and otherwise an empty cell |
| Search.BestMoveIsFirstMaximum | script.js:98-114 | on a board with an empty cell the move is an empty cell whose value (minimax of the board with O there, X to reply, depth 0) is the greatest, and every earlier empty cell's value is strictly smaller (ties go to the lowest index, since the test is `>`) |
| Search.GetBestMove | script.js:98-114 | the method returns `BestMove` of the board, with the same first-maximum characterization, and leaves the board unchanged |
| Search.SearchTwice | script.js:98-114 | two searches in a row on the same board return the same move and leave the board as it was |
| Search.ImmediateWinChosen | script.js:105-110 | if O completing a line at an empty cell `i` wins at once and no earlier empty cell does, the computer plays `i` |
| Scenarios.SingleLineWins | script.js:117-125 | a board with one full line of `p` and nothing else is a win for `p` and not for the other symbol |
| Scenarios.FullBoardWithoutLine | script.js:128-130 | the full board X O X / X O O / O X X is a draw, a win for neither side, and has no best move (-1) |
| Scenarios.TakesImmediateWin | script.js:98-114 | on O O _ / X X _ / _ _ _ the computer completes its own row at cell 2 instead of blocking at cell 5 |
| Scenarios.UnblockedLoses | script.js:68-96 | on X X _ / O _ _ / _ _ _, every move except cell 2 lets X complete the top row next and scores at most -9 |
| Scenarios.BlockReplyOpen | script.js:68-96 | after O blocks at cell 2 on that board, no X reply in cells 4 to 8 brings the score below -8 |
| Scenarios.BlockSurvives | script.js:68-96 | blocking at cell 2 on that board scores at least -8 |
| Scenarios.BlocksImmediateLoss | script.js:98-114 | on X X _ / O _ _ / _ _ _ the computer blocks at cell 2 |
| Turns.NewBoardIsOpen | script.js:8-23 | a fresh board is not terminal and holds no X and no O |
| Turns.Game.constructor | script.js:4-6 | at start-up X is to move, the board is empty, the game is on with "Your turn"; the invariant holds |
| Turns.Game.CreateBoard | script.js:8-23 | nine fresh empty cells, game on, status "Your turn"; `currentPlayer` is not touched |
| Turns.Game.ResetGame | script.js:132-135 | X to move on a fresh empty board with the game on; the invariant holds again whatever the previous state |
| Turns.Game.ComputerMove | script.js:47-65 | O is written at `BestMove` of the board; then a line of O ends the game as a computer win, else a full board ends it as a draw, else X is to move with "Your turn" |
| Turns.Game.OnCellClick | script.js:25-45 | a click while the game is over or on a taken cell changes nothing; otherwise X is written there, then an X line ends the game as "Player X wins", else a full board as a draw, else the computer's reply follows (per `ComputerMove`); the invariant is kept |

## Left out

- The page itself is not modelled. Cells are a `Cell` enum, not `div`
  elements. The status text and its emoji are a `Status` enum. Event
  listeners and `document` are not modelled.
- Turns.Game.OnCellClick: the 500 ms `setTimeout` before `computerMove`
  is not modelled. The model runs `ComputerMove` at the end of the click.
  During that delay the script would accept another click on an empty
  cell and write `currentPlayer`, which is then "O", for the human. It
  would also schedule a second computer move. The model cannot express
  this interleaving.
- `-Infinity`/`Infinity` and JavaScript numbers are not modelled as
  floats. The accumulators use `Ext` (`NegInf`, `Fin(v)`, `PosInf`).
  Scores are whole numbers, so this loses nothing.
- Turns.Game.ComputerMove: requires a non-full board. If the board were
  full, `getBestMove` returns -1 and `cells[-1].textContent = "O"` throws.
  The script only calls it after checking `isDraw`, and the model keeps
  that precondition rather than modelling the exception.
- Optimal play from the empty board is not proved. For example, the
  model does not prove that the computer never loses. Proving it would
  mean evaluating the whole game tree in the verifier. Only the local
  facts above and the concrete positions in `Scenarios` are proved.
- `createBoard` is modelled as written: it does not reset
  `currentPlayer`. So `Turns.Game.CreateBoard` does not promise `Valid()`
  on its own. `resetGame` and start-up set X first, and they do promise
  it.
