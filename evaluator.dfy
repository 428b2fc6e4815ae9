/** Terminal-state evaluator: has a symbol completed a line, is the board full. */
module Evaluator {
  import opened Board

  /** The eight winning lines: three rows, three columns, two diagonals. */
  const WinCombos: seq<seq<int>> := [
    [0, 1, 2], [3, 4, 5], [6, 7, 8],
    [0, 3, 6], [1, 4, 7], [2, 5, 8],
    [0, 4, 8], [2, 4, 6]
  ]

  /** Every cell of win line `k` holds `p`. */
  predicate LineFilled(b: Board, k: int, p: Cell)
    requires 0 <= k < |WinCombos|
  {
    forall j :: 0 <= j < 3 ==> b[WinCombos[k][j]] == p
  }

  /** `p` holds some win line completely. Reads the board only. */
  predicate CheckWinner(b: Board, p: Cell) {
    exists k :: 0 <= k < |WinCombos| && LineFilled(b, k, p)
  }

  /** No cell is empty any more. */
  predicate IsDraw(b: Board) {
    forall i :: 0 <= i < |b| ==> b[i] != Empty
  }

  /** The board is won by either symbol or full. */
  predicate Terminal(b: Board) {
    CheckWinner(b, O) || CheckWinner(b, X) || IsDraw(b)
  }

  /** CheckWinner agrees with the eight lines written out cell by cell. */
  lemma CheckWinnerLines(b: Board, p: Cell)
    ensures CheckWinner(b, p) <==>
      (b[0] == p && b[1] == p && b[2] == p) ||
      (b[3] == p && b[4] == p && b[5] == p) ||
      (b[6] == p && b[7] == p && b[8] == p) ||
      (b[0] == p && b[3] == p && b[6] == p) ||
      (b[1] == p && b[4] == p && b[7] == p) ||
      (b[2] == p && b[5] == p && b[8] == p) ||
      (b[0] == p && b[4] == p && b[8] == p) ||
      (b[2] == p && b[4] == p && b[6] == p)
  {
    if CheckWinner(b, p) {
      var k :| 0 <= k < |WinCombos| && LineFilled(b, k, p);
      assert b[WinCombos[k][0]] == p && b[WinCombos[k][1]] == p && b[WinCombos[k][2]] == p;
      assert k == 0 || k == 1 || k == 2 || k == 3 || k == 4 || k == 5 || k == 6 || k == 7;
    } else {
      assert !LineFilled(b, 0, p) && !LineFilled(b, 1, p) && !LineFilled(b, 2, p) && !LineFilled(b, 3, p);
      assert !LineFilled(b, 4, p) && !LineFilled(b, 5, p) && !LineFilled(b, 6, p) && !LineFilled(b, 7, p);
    }
  }

  /** The board is full exactly when it has no empty cell left to count. */
  lemma IsDrawIffNoEmptyCell(b: Board)
    ensures IsDraw(b) <==> EmptyCount(b) == 0
  {
    EmptyBelowZero(b, 9);
  }

  /** Writing `c` into an empty cell cannot give a different symbol `p` a line. */
  lemma PlaceKeepsOthersLines(b: Board, k: int, c: Cell, p: Cell)
    requires 0 <= k < 9 && b[k] == Empty && c != p
    ensures CheckWinner(b[k := c], p) ==> CheckWinner(b, p)
  {
    if CheckWinner(b[k := c], p) {
      var n :| 0 <= n < |WinCombos| && LineFilled(b[k := c], n, p);
      forall j | 0 <= j < 3 ensures b[WinCombos[n][j]] == p {
        assert b[k := c][WinCombos[n][j]] == p;
      }
      assert LineFilled(b, n, p);
    }
  }
}
