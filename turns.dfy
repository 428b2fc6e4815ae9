/**
 * Turn sequencing: the game's global state (the cells, whose turn it is,
 * whether the game is still on) and the status line, reduced to an enum.
 */
module Turns {
  import opened Board
  import opened Evaluator
  import opened Search

  /** What the status line shows. */
  datatype Status = YourTurn | PlayerWins(player: Cell) | Draw | ComputerTurn | ComputerWins

  /** The empty board is not terminal and holds no X and no O. */
  lemma NewBoardIsOpen()
    ensures !Terminal(EmptyBoard)
    ensures multiset(EmptyBoard)[X] == 0 && multiset(EmptyBoard)[O] == 0
  {
    CheckWinnerLines(EmptyBoard, X);
    CheckWinnerLines(EmptyBoard, O);
    assert EmptyBoard[0] == Empty;
  }

  class Game {
    var cells: array<Cell>
    var currentPlayer: Cell
    var gameActive: bool
    var status: Status

    /**
     * While the game is on it is the human's turn, nobody has a line, some
     * cell is empty and both symbols have been played equally often.
     */
    ghost predicate Valid()
      reads this, cells
    {
      cells.Length == 9 &&
      (gameActive ==>
        currentPlayer == X && status == YourTurn &&
        !Terminal(cells[..]) &&
        multiset(cells[..])[X] == multiset(cells[..])[O])
    }

    /** Script start-up: X to play, then a fresh board. */
    constructor ()
      ensures Valid() && fresh(cells)
      ensures cells[..] == EmptyBoard && currentPlayer == X && gameActive && status == YourTurn
    {
      cells := new Cell[9](_ => Empty);
      currentPlayer := X;
      gameActive := true;
      status := YourTurn;
      new;
      CreateBoard();
      NewBoardIsOpen();
    }

    /** createBoard(): nine new empty cells, the game on; whose turn it is is left alone. */
    method CreateBoard()
      modifies this
      ensures fresh(cells) && cells[..] == EmptyBoard
      ensures gameActive && status == YourTurn && currentPlayer == old(currentPlayer)
    {
      cells := new Cell[9](_ => Empty);
      assert cells[..] == EmptyBoard;
      status := YourTurn;
      gameActive := true;
    }

    /** resetGame(): X to play on a fresh board. */
    method ResetGame()
      modifies this
      ensures Valid() && fresh(cells)
      ensures cells[..] == EmptyBoard && currentPlayer == X && gameActive && status == YourTurn
    {
      currentPlayer := X;
      CreateBoard();
      NewBoardIsOpen();
    }

    /**
     * computerMove(): O goes where GetBestMove points, then the game ends
     * on a line of O or a full board, or passes back to X. The script
     * demands an empty cell: with none, getBestMove gives -1 and the write
     * to cells[-1] fails.
     */
    method ComputerMove()
      requires cells.Length == 9 && !IsDraw(cells[..])
      modifies this, cells
      ensures cells == old(cells)
      ensures var b := old(cells[..])[BestMove(old(cells[..])) := O];
        cells[..] == b &&
        if CheckWinner(b, O) then
          status == ComputerWins && !gameActive && currentPlayer == old(currentPlayer)
        else if IsDraw(b) then
          status == Draw && !gameActive && currentPlayer == old(currentPlayer)
        else
          status == YourTurn && gameActive == old(gameActive) && currentPlayer == X
    {
      var bestMove := GetBestMove(cells);
      cells[bestMove] := O;
      if CheckWinner(cells[..], O) {
        status := ComputerWins;
        gameActive := false;
        return;
      }
      if IsDraw(cells[..]) {
        status := Draw;
        gameActive := false;
        return;
      }
      currentPlayer := X;
      status := YourTurn;
    }

    /**
     * onCellClick on cell `i`. The click is ignored when the game is over
     * or the cell is taken. Otherwise the current player (X) writes there;
     * a line of X or a full board ends the game; else the turn passes to O
     * and the computer's move follows.
     */
    method OnCellClick(i: int)
      requires Valid() && 0 <= i < 9
      modifies this, cells
      ensures Valid() && cells == old(cells)
      ensures var b := old(cells[..]);
        if !old(gameActive) || b[i] != Empty then
          cells[..] == b && gameActive == old(gameActive) && status == old(status) &&
          currentPlayer == old(currentPlayer)
        else
          var b1 := b[i := X];
          if CheckWinner(b1, X) then
            cells[..] == b1 && !gameActive && status == PlayerWins(X) && currentPlayer == X
          else if IsDraw(b1) then
            cells[..] == b1 && !gameActive && status == Draw && currentPlayer == X
          else
            var b2 := b1[BestMove(b1) := O];
            cells[..] == b2 &&
            if CheckWinner(b2, O) then !gameActive && status == ComputerWins && currentPlayer == O
            else if IsDraw(b2) then !gameActive && status == Draw && currentPlayer == O
            else gameActive && status == YourTurn && currentPlayer == X
    {
      if !gameActive || cells[i] != Empty {
        return;
      }
      ghost var b := cells[..];
      cells[i] := currentPlayer;
      assert cells[..] == b[i := X];
      PlaceKeepsOthersLines(b, i, X, O);
      if CheckWinner(cells[..], currentPlayer) {
        status := PlayerWins(currentPlayer);
        gameActive := false;
        return;
      }
      if IsDraw(cells[..]) {
        status := Draw;
        gameActive := false;
        return;
      }
      currentPlayer := O;
      status := ComputerTurn;
      ghost var b1 := cells[..];
      BestMoveIsFirstMaximum(b1);
      PlaceKeepsOthersLines(b1, BestMove(b1), O, X);
      ComputerMove();
    }
  }
}
