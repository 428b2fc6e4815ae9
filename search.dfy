/**
 * Move search engine: a full-depth minimax without pruning. The computer
 * (O) maximises, the human (X) minimises; a win for O at depth d scores
 * 10 - d, a win for X scores d - 10 and a full board with no line scores 0.
 */
module Search {
  import opened Board
  import opened Evaluator

  /** The symbol the side to move writes: O when maximising, X otherwise. */
  function Mover(maximizing: bool): (c: Cell)
    ensures c != Empty
  {
    if maximizing then O else X
  }

  /** The board after the side to move writes its symbol into cell `k`. */
  function Child(b: Board, k: int, maximizing: bool): (c: Board)
    requires 0 <= k < 9
  {
    b[k := Mover(maximizing)]
  }

  function Max(a: int, b: int): int { if a < b then b else a }
  function Min(a: int, b: int): int { if a < b then a else b }

  /** The largest element of a non-empty list of scores. */
  function SeqMax(s: seq<int>): (r: int)
    requires |s| > 0
    ensures r in s && forall x :: x in s ==> x <= r
  {
    if |s| == 1 then s[0]
    else
      assert s == s[..|s| - 1] + [s[|s| - 1]];
      Max(SeqMax(s[..|s| - 1]), s[|s| - 1])
  }

  /** The smallest element of a non-empty list of scores. */
  function SeqMin(s: seq<int>): (r: int)
    requires |s| > 0
    ensures r in s && forall x :: x in s ==> r <= x
  {
    if |s| == 1 then s[0]
    else
      assert s == s[..|s| - 1] + [s[|s| - 1]];
      Min(SeqMin(s[..|s| - 1]), s[|s| - 1])
  }

  /**
   * The minimax value of `b` at ply `depth`, with `maximizing` telling
   * whether O is to move. A line of O is looked at first, so a board showing
   * lines for both symbols counts as a win for O.
   */
  function Score(b: Board, depth: int, maximizing: bool): (r: int)
    decreases EmptyCount(b), 1, 0
  {
    if CheckWinner(b, O) then 10 - depth
    else if CheckWinner(b, X) then depth - 10
    else if IsDraw(b) then 0
    else
      IsDrawIffNoEmptyCell(b);
      var scores := ChildScores(b, depth, maximizing, 9);
      if maximizing then SeqMax(scores) else SeqMin(scores)
  }

  /**
   * The scores of the children of `b` through its first `n` cells, in index
   * order: for every empty cell the mover's symbol is placed there and the
   * result is scored one ply deeper with the other side to move.
   */
  function ChildScores(b: Board, depth: int, maximizing: bool, n: int): (scores: seq<int>)
    requires 0 <= n <= 9
    ensures |scores| == EmptyBelow(b, n)
    decreases EmptyCount(b), 0, n
  {
    if n == 0 then []
    else
      var earlier := ChildScores(b, depth, maximizing, n - 1);
      if b[n - 1] == Empty then
        PlaceUsesEmptyCell(b, n - 1, Mover(maximizing));
        earlier + [Score(Child(b, n - 1, maximizing), depth + 1, !maximizing)]
      else earlier
  }

  /** One more cell: an empty one appends its child's score, an occupied one adds nothing. */
  lemma ChildScoresNext(b: Board, depth: int, maximizing: bool, i: int)
    requires 0 <= i < 9
    ensures ChildScores(b, depth, maximizing, i + 1) ==
      if b[i] == Empty
      then ChildScores(b, depth, maximizing, i) + [Score(Child(b, i, maximizing), depth + 1, !maximizing)]
      else ChildScores(b, depth, maximizing, i)
  {
  }

  /** Appending to a list of scores: the maximum is the larger of the old maximum and the new score. */
  lemma SeqMaxAppend(s: seq<int>, e: int)
    ensures SeqMax(s + [e]) == if |s| == 0 then e else Max(SeqMax(s), e)
  {
    if |s| > 0 {
      assert (s + [e])[..|s|] == s;
    }
  }

  /** Appending to a list of scores: the minimum is the smaller of the old minimum and the new score. */
  lemma SeqMinAppend(s: seq<int>, e: int)
    ensures SeqMin(s + [e]) == if |s| == 0 then e else Min(SeqMin(s), e)
  {
    if |s| > 0 {
      assert (s + [e])[..|s|] == s;
    }
  }

  /** Every empty cell below `n` contributes its child's score. */
  lemma {:induction false} ChildScoreIncluded(b: Board, depth: int, maximizing: bool, n: int, k: int)
    requires 0 <= k < n <= 9 && b[k] == Empty
    ensures Score(Child(b, k, maximizing), depth + 1, !maximizing) in ChildScores(b, depth, maximizing, n)
  {
    if k < n - 1 {
      ChildScoreIncluded(b, depth, maximizing, n - 1, k);
    }
  }

  /** Every child score comes from some empty cell below `n`. */
  lemma {:induction false} ChildScoreOrigin(b: Board, depth: int, maximizing: bool, n: int, x: int)
    requires 0 <= n <= 9 && x in ChildScores(b, depth, maximizing, n)
    ensures exists k {:trigger Child(b, k, maximizing)} :: 0 <= k < n && b[k] == Empty && x == Score(Child(b, k, maximizing), depth + 1, !maximizing)
  {
    var earlier := ChildScores(b, depth, maximizing, n - 1);
    if x in earlier {
      ChildScoreOrigin(b, depth, maximizing, n - 1, x);
    }
  }

  /**
   * Score as the rules of the game state it: 10 - depth when O holds a line
   * (whatever X holds), depth - 10 when only X does, 0 on a full board with
   * no line, and otherwise the value of one of the empty cells' children
   * that bounds all of them from above when O is to move and from below when
   * X is to move.
   */
  lemma ScoreRules(b: Board, depth: int, maximizing: bool)
    ensures CheckWinner(b, O) ==> Score(b, depth, maximizing) == 10 - depth
    ensures !CheckWinner(b, O) && CheckWinner(b, X) ==> Score(b, depth, maximizing) == depth - 10
    ensures !CheckWinner(b, O) && !CheckWinner(b, X) && IsDraw(b) ==> Score(b, depth, maximizing) == 0
    ensures !Terminal(b) ==>
      exists k {:trigger Child(b, k, maximizing)} ::
        0 <= k < 9 && b[k] == Empty &&
        Score(b, depth, maximizing) == Score(Child(b, k, maximizing), depth + 1, !maximizing)
    ensures !Terminal(b) ==>
      forall k {:trigger Child(b, k, maximizing)} :: 0 <= k < 9 && b[k] == Empty ==>
        if maximizing then Score(Child(b, k, maximizing), depth + 1, !maximizing) <= Score(b, depth, maximizing)
        else Score(b, depth, maximizing) <= Score(Child(b, k, maximizing), depth + 1, !maximizing)
  {
    if !Terminal(b) {
      IsDrawIffNoEmptyCell(b);
      var scores := ChildScores(b, depth, maximizing, 9);
      ChildScoreOrigin(b, depth, maximizing, 9, Score(b, depth, maximizing));
      forall k | 0 <= k < 9 && b[k] == Empty
        ensures Score(Child(b, k, maximizing), depth + 1, !maximizing) in scores
      {
        ChildScoreIncluded(b, depth, maximizing, 9, k);
      }
    }
  }

  /**
   * While no more than 10 - depth cells are empty (always so in play, where
   * the search starts at depth 0 below a board with at most 8 empty cells)
   * the value lies in [depth - 10, 10 - depth], and in [depth - 9, 9 - depth]
   * when the board is not terminal: the scores are never infinite and a
   * quicker win is worth more than any later one.
   */
  lemma {:induction false} ScoreBounds(b: Board, depth: int, maximizing: bool)
    requires depth + EmptyCount(b) <= 10
    ensures depth - 10 <= Score(b, depth, maximizing) <= 10 - depth
    ensures !Terminal(b) ==> depth - 9 <= Score(b, depth, maximizing) <= 9 - depth
    decreases EmptyCount(b)
  {
    ScoreRules(b, depth, maximizing);
    if !Terminal(b) {
      var k :| 0 <= k < 9 && b[k] == Empty &&
        Score(b, depth, maximizing) == Score(Child(b, k, maximizing), depth + 1, !maximizing);
      PlaceUsesEmptyCell(b, k, Mover(maximizing));
      ScoreBounds(Child(b, k, maximizing), depth + 1, !maximizing);
    }
  }

  /**
   * JavaScript's numbers as far as the search uses them: the two infinities
   * that seed the running maximum and minimum, and finite scores.
   */
  datatype Ext = NegInf | Fin(v: int) | PosInf

  /** Math.max(a, v) for a finite `v`. */
  function ExtMax(a: Ext, v: int): Ext {
    match a
    case NegInf => Fin(v)
    case Fin(u) => Fin(Max(u, v))
    case PosInf => PosInf
  }

  /** Math.min(a, v) for a finite `v`. */
  function ExtMin(a: Ext, v: int): Ext {
    match a
    case NegInf => NegInf
    case Fin(u) => Fin(Min(u, v))
    case PosInf => Fin(v)
  }

  /** The comparison `v > a` of a finite `v` against `a`. */
  predicate ExtBelow(a: Ext, v: int) {
    match a
    case NegInf => true
    case Fin(u) => u < v
    case PosInf => false
  }

  /** The value the top level gives to playing O into cell `i`. */
  function MoveValue(b: Board, i: int): int
    requires 0 <= i < 9
  {
    Score(b[i := O], 0, false)
  }

  /**
   * The pair (move, best value) after the top-level scan has looked at the
   * first `n` cells: an empty cell replaces the current choice only when its
   * value is strictly greater.
   */
  function Scan(b: Board, n: int): (int, Ext)
    requires 0 <= n <= 9
  {
    if n == 0 then (-1, NegInf)
    else
      var (move, best) := Scan(b, n - 1);
      if b[n - 1] == Empty && ExtBelow(best, MoveValue(b, n - 1))
      then (n - 1, Fin(MoveValue(b, n - 1)))
      else (move, best)
  }

  /** The computer's choice on board `b`: -1 when no cell is empty. */
  function BestMove(b: Board): (move: int)
    ensures IsDraw(b) <==> move == -1
    ensures !IsDraw(b) ==> 0 <= move < 9 && b[move] == Empty
  {
    ScanChoosesFirstBest(b, 9);
    assert IsDraw(b) <==> !HasEmptyBelow(b, 9);
    Scan(b, 9).0
  }

  /** The first `n` cells contain an empty one. */
  predicate HasEmptyBelow(b: Board, n: int)
    requires 0 <= n <= 9
  {
    exists j :: 0 <= j < n && b[j] == Empty
  }

  /**
   * After `n` cells the scan holds -1 and no value if none of them was
   * empty, and otherwise the first of them whose value is greatest, with
   * that value.
   */
  lemma {:induction false} ScanChoosesFirstBest(b: Board, n: int)
    requires 0 <= n <= 9
    ensures !HasEmptyBelow(b, n) ==> Scan(b, n) == (-1, NegInf)
    ensures HasEmptyBelow(b, n) ==>
      var (move, best) := Scan(b, n);
      0 <= move < n && b[move] == Empty && best == Fin(MoveValue(b, move)) &&
      (forall j :: 0 <= j < n && b[j] == Empty ==> MoveValue(b, j) <= MoveValue(b, move)) &&
      (forall j :: 0 <= j < move && b[j] == Empty ==> MoveValue(b, j) < MoveValue(b, move))
  {
    if n > 0 {
      ScanChoosesFirstBest(b, n - 1);
      if !HasEmptyBelow(b, n - 1) && b[n - 1] == Empty {
        assert HasEmptyBelow(b, n);
      }
      if HasEmptyBelow(b, n) && !HasEmptyBelow(b, n - 1) {
        assert b[n - 1] == Empty;
      }
    }
  }

  /**
   * BestMove is -1 exactly on a full board; otherwise it is an empty cell
   * whose value is maximal, and every empty cell before it has a strictly
   * smaller value.
   */
  lemma BestMoveIsFirstMaximum(b: Board)
    ensures IsDraw(b) <==> BestMove(b) == -1
    ensures !IsDraw(b) ==>
      0 <= BestMove(b) < 9 && b[BestMove(b)] == Empty &&
      (forall j :: 0 <= j < 9 && b[j] == Empty ==> MoveValue(b, j) <= MoveValue(b, BestMove(b))) &&
      (forall j :: 0 <= j < BestMove(b) && b[j] == Empty ==> MoveValue(b, j) < MoveValue(b, BestMove(b)))
  {
    ScanChoosesFirstBest(b, 9);
    assert IsDraw(b) <==> !HasEmptyBelow(b, 9);
  }

  /**
   * The running value of minimax's loop after the first `n` cells: the
   * seed (-Infinity when maximising, +Infinity when minimising) while no
   * child has been scored, and the best child score so far after that.
   */
  predicate Accumulated(b: Board, depth: int, maximizing: bool, n: int, acc: Ext)
    requires 0 <= n <= 9
  {
    var done := ChildScores(b, depth, maximizing, n);
    if |done| == 0 then acc == Seed(maximizing)
    else acc == Fin(if maximizing then SeqMax(done) else SeqMin(done))
  }

  /** The value the running aggregate starts from: -Infinity when maximising, +Infinity otherwise. */
  function Seed(maximizing: bool): Ext {
    if maximizing then NegInf else PosInf
  }

  /** An occupied cell leaves minimax's running value as it was. */
  lemma AccumulatedSkip(b: Board, depth: int, maximizing: bool, i: int, acc: Ext)
    requires 0 <= i < 9 && b[i] != Empty && Accumulated(b, depth, maximizing, i, acc)
    ensures Accumulated(b, depth, maximizing, i + 1, acc)
  {
    ChildScoresNext(b, depth, maximizing, i);
  }

  /** An empty cell folds its child's score into minimax's running value. */
  lemma AccumulatedStep(b: Board, depth: int, maximizing: bool, i: int, acc: Ext, e: int)
    requires 0 <= i < 9 && b[i] == Empty && Accumulated(b, depth, maximizing, i, acc)
    requires e == Score(Child(b, i, maximizing), depth + 1, !maximizing)
    ensures Accumulated(b, depth, maximizing, i + 1, if maximizing then ExtMax(acc, e) else ExtMin(acc, e))
  {
    ChildScoresNext(b, depth, maximizing, i);
    var done := ChildScores(b, depth, maximizing, i);
    SeqMaxAppend(done, e);
    SeqMinAppend(done, e);
  }

  /** After all nine cells of a board that is not terminal, the running value is the board's score. */
  lemma AccumulatedFinal(b: Board, depth: int, maximizing: bool, acc: Ext)
    requires !Terminal(b) && Accumulated(b, depth, maximizing, 9, acc)
    ensures acc == Fin(Score(b, depth, maximizing))
  {
    IsDrawIffNoEmptyCell(b);
  }

  /**
   * minimax(depth, isMaximizing) on the array `cells`. Every speculative
   * write is undone before the next cell is tried, so the board is left as
   * it was found, and the result is the value Score gives the board; in
   * particular the loops' -Infinity or +Infinity seed is never returned.
   */
  method Minimax(cells: array<Cell>, depth: int, isMaximizing: bool) returns (r: int)
    requires cells.Length == 9
    modifies cells
    ensures cells[..] == old(cells[..])
    ensures r == Score(old(cells[..]), depth, isMaximizing)
    decreases EmptyCount(cells[..])
  {
    if CheckWinner(cells[..], O) { return 10 - depth; }
    if CheckWinner(cells[..], X) { return depth - 10; }
    if IsDraw(cells[..]) { return 0; }
    ghost var b: Board := cells[..];
    if isMaximizing {
      var maxEval := NegInf;
      for i := 0 to 9
        invariant cells[..] == b
        invariant Accumulated(b, depth, true, i, maxEval)
      {
        if cells[i] == Empty {
          cells[i] := O;
          assert cells[..] == Child(b, i, true);
          PlaceUsesEmptyCell(b, i, O);
          var eval := Minimax(cells, depth + 1, false);
          cells[i] := Empty;
          assert cells[..] == b;
          AccumulatedStep(b, depth, true, i, maxEval, eval);
          maxEval := ExtMax(maxEval, eval);
        } else {
          AccumulatedSkip(b, depth, true, i, maxEval);
        }
      }
      AccumulatedFinal(b, depth, true, maxEval);
      return maxEval.v;
    } else {
      var minEval := PosInf;
      for i := 0 to 9
        invariant cells[..] == b
        invariant Accumulated(b, depth, false, i, minEval)
      {
        if cells[i] == Empty {
          cells[i] := X;
          assert cells[..] == Child(b, i, false);
          PlaceUsesEmptyCell(b, i, X);
          var eval := Minimax(cells, depth + 1, true);
          cells[i] := Empty;
          assert cells[..] == b;
          AccumulatedStep(b, depth, false, i, minEval, eval);
          minEval := ExtMin(minEval, eval);
        } else {
          AccumulatedSkip(b, depth, false, i, minEval);
        }
      }
      AccumulatedFinal(b, depth, false, minEval);
      return minEval.v;
    }
  }

  /**
   * getBestMove() on the array `cells`: tries O in every empty cell, scores
   * it with the human to move at depth 0 and keeps the first cell with the
   * strictly greatest value. The board is left as it was found.
   */
  method GetBestMove(cells: array<Cell>) returns (move: int)
    requires cells.Length == 9
    modifies cells
    ensures cells[..] == old(cells[..])
    ensures move == BestMove(old(cells[..]))
    ensures IsDraw(old(cells[..])) <==> move == -1
    ensures !IsDraw(old(cells[..])) ==>
      0 <= move < 9 && old(cells[move]) == Empty &&
      (forall j :: 0 <= j < 9 && old(cells[j]) == Empty ==> MoveValue(old(cells[..]), j) <= MoveValue(old(cells[..]), move)) &&
      (forall j :: 0 <= j < move && old(cells[j]) == Empty ==> MoveValue(old(cells[..]), j) < MoveValue(old(cells[..]), move))
  {
    ghost var b: Board := cells[..];
    var bestVal := NegInf;
    move := -1;
    for i := 0 to 9
      invariant cells[..] == b
      invariant (move, bestVal) == Scan(b, i)
    {
      if cells[i] == Empty {
        cells[i] := O;
        assert cells[..] == b[i := O];
        var moveVal := Minimax(cells, 0, false);
        cells[i] := Empty;
        assert cells[..] == b;
        if ExtBelow(bestVal, moveVal) {
          move := i;
          bestVal := Fin(moveVal);
        }
      }
    }
    BestMoveIsFirstMaximum(b);
  }

  /**
   * Searching twice on an untouched board gives the same move and leaves
   * the board as it was both times.
   */
  method SearchTwice(cells: array<Cell>) returns (first: int, second: int)
    requires cells.Length == 9
    modifies cells
    ensures cells[..] == old(cells[..])
    ensures first == second == BestMove(old(cells[..]))
  {
    first := GetBestMove(cells);
    second := GetBestMove(cells);
  }

  /**
   * A cell that completes a line of O is worth 10, the most any move can be
   * worth, and only such cells are worth 10; so when one exists the
   * computer takes the first of them.
   */
  lemma ImmediateWinChosen(b: Board, i: int)
    requires 0 <= i < 9 && b[i] == Empty && CheckWinner(b[i := O], O)
    requires forall j :: 0 <= j < i && b[j] == Empty ==> !CheckWinner(b[j := O], O)
    ensures BestMove(b) == i
  {
    BestMoveIsFirstMaximum(b);
    assert !IsDraw(b);
    var m := BestMove(b);
    forall j | 0 <= j < 9 && b[j] == Empty
      ensures MoveValue(b, j) <= 10
      ensures MoveValue(b, j) == 10 <==> CheckWinner(b[j := O], O)
    {
      PlaceUsesEmptyCell(b, j, O);
      ScoreBounds(b[j := O], 0, false);
      ScoreRules(b[j := O], 0, false);
    }
    assert MoveValue(b, i) == 10;
  }
}
