/** Concrete positions from the game's expected behaviour. */
module Scenarios {
  import opened Board
  import opened Evaluator
  import opened Search

  /** The board with `p` on win line `k` and every other cell empty. */
  function LineBoard(k: int, p: Cell): (b: Board)
    requires 0 <= k < |WinCombos|
  {
    seq(9, j => if j in WinCombos[k] then p else Empty)
  }

  /** A single filled line is a win for its symbol and not for the other one. */
  lemma SingleLineWins(k: int)
    requires 0 <= k < |WinCombos|
    ensures CheckWinner(LineBoard(k, X), X) && !CheckWinner(LineBoard(k, X), O)
    ensures CheckWinner(LineBoard(k, O), O) && !CheckWinner(LineBoard(k, O), X)
  {
    var bx, bo := LineBoard(k, X), LineBoard(k, O);
    assert LineFilled(bx, k, X) && LineFilled(bo, k, O);
    CheckWinnerLines(bx, O);
    CheckWinnerLines(bo, X);
  }

  /** A full board with no three in a row is a draw and a win for nobody. */
  lemma FullBoardWithoutLine()
    ensures var b: Board := [X, O, X, X, O, O, O, X, X];
      IsDraw(b) && !CheckWinner(b, X) && !CheckWinner(b, O) && BestMove(b) == -1
  {
    var b: Board := [X, O, X, X, O, O, O, X, X];
    CheckWinnerLines(b, X);
    CheckWinnerLines(b, O);
    BestMoveIsFirstMaximum(b);
  }

  /** With O O _ / X X _ / _ _ _ the computer completes its row at cell 2 rather than block at 5. */
  lemma TakesImmediateWin()
    ensures BestMove([O, O, Empty, X, X, Empty, Empty, Empty, Empty]) == 2
  {
    var b: Board := [O, O, Empty, X, X, Empty, Empty, Empty, Empty];
    CheckWinnerLines(b[2 := O], O);
    ImmediateWinChosen(b, 2);
  }

  /** The position X X _ / O _ _ / _ _ _ with the computer to move. */
  const ThreatBoard: Board := [X, X, Empty, O, Empty, Empty, Empty, Empty, Empty]

  /** Any cell but 2 lets X complete the top row one ply later, which scores -9 or less. */
  lemma UnblockedLoses(j: int)
    requires 0 <= j < 9 && ThreatBoard[j] == Empty && j != 2
    ensures MoveValue(ThreatBoard, j) <= -9
  {
    var c := ThreatBoard[j := O];
    CheckWinnerLines(c, O);
    CheckWinnerLines(c, X);
    ScoreRules(c, 0, false);
    CheckWinnerLines(Child(c, 2, false), O);
    CheckWinnerLines(Child(c, 2, false), X);
  }

  /** After the block at 2, no reply `k` of X ends the game, so each reply scores at least -8. */
  lemma BlockReplyOpen(k: int)
    requires 4 <= k < 9
    ensures Score(Child(ThreatBoard[2 := O], k, false), 1, true) >= -8
  {
    var d := Child(ThreatBoard[2 := O], k, false);
    CheckWinnerLines(d, O);
    CheckWinnerLines(d, X);
    PlaceUsesEmptyCell(ThreatBoard[2 := O], k, X);
    ScoreBounds(d, 1, true);
  }

  /** Hence the block itself scores at least -8. */
  lemma BlockSurvives()
    ensures MoveValue(ThreatBoard, 2) >= -8
  {
    var c := ThreatBoard[2 := O];
    CheckWinnerLines(c, O);
    CheckWinnerLines(c, X);
    ScoreRules(c, 0, false);
    var k :| 0 <= k < 9 && c[k] == Empty && Score(c, 0, false) == Score(Child(c, k, false), 1, true);
    assert c[0] != Empty && c[1] != Empty && c[2] != Empty && c[3] != Empty;
    BlockReplyOpen(k);
  }

  /** On that position the computer blocks at cell 2. */
  lemma BlocksImmediateLoss()
    ensures BestMove(ThreatBoard) == 2
  {
    BestMoveIsFirstMaximum(ThreatBoard);
    BlockSurvives();
    var m := BestMove(ThreatBoard);
    if m != 2 {
      UnblockedLoses(m);
    }
  }
}
