/** The 3x3 board: nine cells in row-major order, each empty or holding a mark. */
module Board {

  /** What a cell shows: nothing, the human's mark or the computer's mark. */
  datatype Cell = Empty | X | O

  /** A board snapshot; index 3 * row + column. */
  type Board = b: seq<Cell> | |b| == 9
    witness [Empty, Empty, Empty, Empty, Empty, Empty, Empty, Empty, Empty]

  /** The all-empty board a new game starts from. */
  const EmptyBoard: Board := [Empty, Empty, Empty, Empty, Empty, Empty, Empty, Empty, Empty]

  /** The number of empty cells among the first `n` cells of `b`. */
  function EmptyBelow(b: seq<Cell>, n: int): (count: nat)
    requires 0 <= n <= |b|
    ensures count <= n
  {
    if n == 0 then 0
    else EmptyBelow(b, n - 1) + (if b[n - 1] == Empty then 1 else 0)
  }

  /** The number of cells of `b` that still hold nothing. */
  function EmptyCount(b: seq<Cell>): nat {
    EmptyBelow(b, |b|)
  }

  /** No empty cell is counted exactly when none of the first `n` cells is empty. */
  lemma {:induction false} EmptyBelowZero(b: seq<Cell>, n: int)
    requires 0 <= n <= |b|
    ensures EmptyBelow(b, n) == 0 <==> forall i :: 0 <= i < n ==> b[i] != Empty
  {
    if n > 0 {
      EmptyBelowZero(b, n - 1);
    }
  }

  /** Writing a mark into an empty cell below `n` uses up one of the empty cells counted there. */
  lemma {:induction false} EmptyBelowPlace(b: seq<Cell>, n: int, k: int, c: Cell)
    requires 0 <= n <= |b| && 0 <= k < |b| && b[k] == Empty && c != Empty
    ensures EmptyBelow(b[k := c], n) == EmptyBelow(b, n) - (if k < n then 1 else 0)
  {
    if n > 0 {
      EmptyBelowPlace(b, n - 1, k, c);
    }
  }

  /** Writing a mark into an empty cell uses up exactly one empty cell. */
  lemma PlaceUsesEmptyCell(b: seq<Cell>, k: int, c: Cell)
    requires 0 <= k < |b| && b[k] == Empty && c != Empty
    ensures EmptyCount(b[k := c]) == EmptyCount(b) - 1
  {
    EmptyBelowPlace(b, |b|, k, c);
  }
}
