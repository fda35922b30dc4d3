/** The exhaustive search (`minimax`) and the move selector built on it
    (`find_best_move`).

    `Value` is the search as a function of the board; `MinimaxSearch` is
    the search as written, on a shared board that it marks and unmarks in
    place, and is proved to compute `Value` and to hand the board back
    unchanged. `BestMove` and `FindBestMove` are the same pair for the
    move selector. O is the maximizing side, X the minimizing one. */
module Minimax {
  import opened Scores
  import opened Board

  /** The mark the side to move places: O when maximizing, X otherwise. */
  function Mark(maximizing: bool): Cell {
    if maximizing then O else X
  }

  /** The running best a node starts from: -inf when maximizing, +inf otherwise. */
  function Seed(maximizing: bool): ExtInt {
    if maximizing then NegInf else PosInf
  }

  /** The board after the side to move plays the `j`-th valid move. */
  function Child(b: Grid, j: nat, maximizing: bool): (c: Grid)
    requires j < |ValidMoves(b)|
    ensures |ValidMoves(c)| + 1 == |ValidMoves(b)|
  {
    Place(b, ValidMoves(b)[j], Mark(maximizing))
  }

  predicate IsTerminal(b: Grid) {
    IsWinner(b, O) || IsWinner(b, X) || IsDraw(b)
  }

  /** The value the exhaustive search returns for `b` at `depth`: an O win
      is worth 10 - depth, an X win depth - 10, a draw 0 (checked in that
      order); otherwise the best child value for the side to move. */
  function Value(b: Grid, depth: int, maximizing: bool): ExtInt
    decreases |ValidMoves(b)|, 1
  {
    if IsWinner(b, O) then Fin(10 - depth)
    else if IsWinner(b, X) then Fin(depth - 10)
    else if IsDraw(b) then Fin(0)
    else BestOfMoves(b, |ValidMoves(b)|, depth, maximizing)
  }

  /** The value of the `j`-th child, searched one ply deeper by the other side. */
  function ChildValue(b: Grid, j: nat, depth: int, maximizing: bool): ExtInt
    requires j < |ValidMoves(b)|
    decreases |ValidMoves(b)|, 0, 0
  {
    Value(Child(b, j, maximizing), depth + 1, !maximizing)
  }

  /** The running best score after the first `n` valid moves. */
  function BestOfMoves(b: Grid, n: nat, depth: int, maximizing: bool): ExtInt
    requires n <= |ValidMoves(b)|
    decreases |ValidMoves(b)|, 0, n
  {
    if n == 0 then Seed(maximizing)
    else if maximizing then Max(BestOfMoves(b, n - 1, depth, maximizing), ChildValue(b, n - 1, depth, maximizing))
    else Min(BestOfMoves(b, n - 1, depth, maximizing), ChildValue(b, n - 1, depth, maximizing))
  }

  /** The infinite seeds are never returned, on any board: a board that
      is not terminal has a valid move. */
  lemma {:induction false} ValueIsFinite(b: Grid, depth: int, maximizing: bool)
    ensures Value(b, depth, maximizing).Fin?
    decreases |ValidMoves(b)|, 1
  {
    if !IsTerminal(b) {
      BestOfMovesIsFinite(b, |ValidMoves(b)|, depth, maximizing);
    }
  }

  lemma {:induction false} BestOfMovesIsFinite(b: Grid, n: nat, depth: int, maximizing: bool)
    requires 1 <= n <= |ValidMoves(b)|
    ensures BestOfMoves(b, n, depth, maximizing).Fin?
    decreases |ValidMoves(b)|, 0, n
  {
    ValueIsFinite(Child(b, n - 1, maximizing), depth + 1, !maximizing);
    if n > 1 {
      BestOfMovesIsFinite(b, n - 1, depth, maximizing);
    }
  }

  /** Within the nine-ply horizon (depth plus empty cells at most 10), a
      search at `depth` scores in [depth - 10, 10 - depth]. */
  lemma {:induction false} ValueBounds(b: Grid, depth: int, maximizing: bool)
    requires depth + |ValidMoves(b)| <= 10
    ensures Value(b, depth, maximizing).Fin?
    ensures depth - 10 <= Value(b, depth, maximizing).n <= 10 - depth
    decreases |ValidMoves(b)|, 1
  {
    if !IsTerminal(b) {
      BestOfMovesBounds(b, |ValidMoves(b)|, depth, maximizing);
    }
  }

  /** Children are searched one ply deeper, so their best lies in
      [depth - 9, 9 - depth]. */
  lemma {:induction false} BestOfMovesBounds(b: Grid, n: nat, depth: int, maximizing: bool)
    requires 1 <= n <= |ValidMoves(b)|
    requires depth + |ValidMoves(b)| <= 10
    ensures BestOfMoves(b, n, depth, maximizing).Fin?
    ensures depth - 9 <= BestOfMoves(b, n, depth, maximizing).n <= 9 - depth
    decreases |ValidMoves(b)|, 0, n
  {
    ValueBounds(Child(b, n - 1, maximizing), depth + 1, !maximizing);
    if n > 1 {
      BestOfMovesBounds(b, n - 1, depth, maximizing);
    }
  }

  /** The running best over the first `n` moves bounds each of their
      child values and is one of them. */
  lemma {:induction false} BestOfMovesIsExtremum(b: Grid, n: nat, depth: int, maximizing: bool)
    requires 1 <= n <= |ValidMoves(b)|
    ensures forall j :: 0 <= j < n ==>
      if maximizing then Le(ChildValue(b, j, depth, maximizing), BestOfMoves(b, n, depth, maximizing))
      else Le(BestOfMoves(b, n, depth, maximizing), ChildValue(b, j, depth, maximizing))
    ensures exists j :: 0 <= j < n && BestOfMoves(b, n, depth, maximizing) == ChildValue(b, j, depth, maximizing)
  {
    var best := BestOfMoves(b, n, depth, maximizing);
    var last := ChildValue(b, n - 1, depth, maximizing);
    if n == 1 {
      assert BestOfMoves(b, 0, depth, maximizing) == Seed(maximizing);
      assert best == last;
    } else {
      BestOfMovesIsExtremum(b, n - 1, depth, maximizing);
      var previous := BestOfMoves(b, n - 1, depth, maximizing);
      assert best == if maximizing then Max(previous, last) else Min(previous, last);
      var j :| 0 <= j < n - 1 && previous == ChildValue(b, j, depth, maximizing);
      assert best == previous || best == last;
    }
  }

  /** No move is skipped: at a node that is not terminal, the maximizing
      side's value is the greatest of its children's values and the
      minimizing side's value is the least. */
  lemma ValueIsBestChild(b: Grid, depth: int, maximizing: bool)
    requires !IsTerminal(b)
    ensures |ValidMoves(b)| > 0
    ensures forall j :: 0 <= j < |ValidMoves(b)| ==>
      if maximizing then Le(ChildValue(b, j, depth, maximizing), Value(b, depth, maximizing))
      else Le(Value(b, depth, maximizing), ChildValue(b, j, depth, maximizing))
    ensures exists j :: 0 <= j < |ValidMoves(b)| && Value(b, depth, maximizing) == ChildValue(b, j, depth, maximizing)
  {
    BestOfMovesIsExtremum(b, |ValidMoves(b)|, depth, maximizing);
  }

  /** The running best only improves as moves are added. */
  lemma {:induction false} BestOfMovesMonotone(b: Grid, i: nat, n: nat, depth: int, maximizing: bool)
    requires i <= n <= |ValidMoves(b)|
    ensures maximizing ==> Le(BestOfMoves(b, i, depth, maximizing), BestOfMoves(b, n, depth, maximizing))
    ensures !maximizing ==> Le(BestOfMoves(b, n, depth, maximizing), BestOfMoves(b, i, depth, maximizing))
    decreases n
  {
    if i < n {
      BestOfMovesMonotone(b, i, n - 1, depth, maximizing);
    }
  }

  /** The exhaustive search as written: place each valid move in the shared
      board, search one ply deeper for the other side, undo the move. */
  method MinimaxSearch(board: array<Cell>, depth: int, maximizing: bool) returns (score: ExtInt)
    requires board.Length == 9
    modifies board
    ensures board[..] == old(board[..])
    ensures score == Value(old(board[..]), depth, maximizing)
    decreases |ValidMoves(board[..])|, 1
  {
    if IsWinner(board[..], O) {
      return Fin(10 - depth);
    }
    if IsWinner(board[..], X) {
      return Fin(depth - 10);
    }
    if IsDraw(board[..]) {
      return Fin(0);
    }
    ghost var b: Grid := board[..];
    var moves := ValidMoves(board[..]);
    score := Seed(maximizing);
    for i := 0 to |moves|
      invariant board[..] == b
      invariant score == BestOfMoves(b, i, depth, maximizing)
    {
      var s := SearchChild(board, moves[i], i, depth, maximizing);
      score := if maximizing then Max(score, s) else Min(score, s);
    }
  }

  /** One step of the search loop: the side to move marks `m`, the `j`-th
      valid move, the other side searches one ply deeper, the mark is
      removed. */
  method SearchChild(board: array<Cell>, m: Move, ghost j: nat, depth: int, maximizing: bool) returns (score: ExtInt)
    requires board.Length == 9
    requires j < |ValidMoves(board[..])| && m == ValidMoves(board[..])[j]
    modifies board
    ensures board[..] == old(board[..])
    ensures score == ChildValue(old(board[..]), j, depth, maximizing)
    decreases |ValidMoves(board[..])|, 0
  {
    ghost var b: Grid := board[..];
    board[m] := Mark(maximizing);
    assert board[..] == Child(b, j, maximizing);
    score := MinimaxSearch(board, depth + 1, !maximizing);
    board[m] := Empty;
    assert board[..] == b;
  }

  /** The score the selector gives the `j`-th valid move: O plays it and
      the minimizing side searches the result at depth 0. */
  function MoveScore(b: Grid, j: nat): ExtInt
    requires j < |ValidMoves(b)|
  {
    Value(Place(b, ValidMoves(b)[j], O), 0, false)
  }

  /** Every candidate scores in [-10, 10], and exactly the candidates that
      complete a line of O score 10. */
  lemma MoveScoreBounds(b: Grid, j: nat)
    requires j < |ValidMoves(b)|
    ensures MoveScore(b, j).Fin? && -10 <= MoveScore(b, j).n <= 10
    ensures MoveScore(b, j) == Fin(10) <==> IsWinner(Place(b, ValidMoves(b)[j], O), O)
  {
    var c := Place(b, ValidMoves(b)[j], O);
    ValueBounds(c, 0, false);
    if !IsTerminal(c) {
      BestOfMovesBounds(c, |ValidMoves(c)|, 0, false);
    }
  }

  /** The candidates' scores, in the order of the valid moves. */
  function MoveScores(b: Grid): (scores: seq<ExtInt>)
    ensures |scores| == |ValidMoves(b)|
    ensures forall j :: 0 <= j < |scores| ==> scores[j] == MoveScore(b, j)
  {
    ScoresBefore(b, |ValidMoves(b)|)
  }

  function ScoresBefore(b: Grid, n: nat): (scores: seq<ExtInt>)
    requires n <= |ValidMoves(b)|
    ensures |scores| == n
    ensures forall j :: 0 <= j < n ==> scores[j] == MoveScore(b, j)
  {
    if n == 0 then [] else ScoresBefore(b, n - 1) + [MoveScore(b, n - 1)]
  }

  /** (best_move, best_score) after the selector has looked at the first
      `n` candidates: a later candidate replaces the best only on a
      strictly greater score. */
  function Choice(moves: seq<Move>, scores: seq<ExtInt>, n: nat): (Option<Move>, ExtInt)
    requires n <= |moves| == |scores|
  {
    if n == 0 then (None, NegInf)
    else
      var previous := Choice(moves, scores, n - 1);
      if Less(previous.1, scores[n - 1]) then (Some(moves[n - 1]), scores[n - 1]) else previous
  }

  /** The move find_best_move returns. */
  function BestMove(b: Grid): Option<Move> {
    Choice(ValidMoves(b), MoveScores(b), |ValidMoves(b)|).0
  }

  /** Among the first `n` scores, the `k`-th is the greatest and every
      score before it is strictly less. */
  predicate IsFirstBest(scores: seq<ExtInt>, k: nat, n: nat)
    requires k < n <= |scores|
  {
    && (forall j :: 0 <= j < n ==> Le(scores[j], scores[k]))
    && (forall j :: 0 <= j < k ==> Less(scores[j], scores[k]))
  }

  /** With finite scores, the selector's choice after `n` candidates is the
      first one with the greatest score. */
  lemma {:induction false} ChoiceIsFirstBest(moves: seq<Move>, scores: seq<ExtInt>, n: nat)
    requires n <= |moves| == |scores|
    requires forall j :: 0 <= j < |scores| ==> scores[j].Fin?
    ensures Choice(moves, scores, n).0 == None <==> n == 0
    ensures n > 0 ==> exists k :: 0 <= k < n && Choice(moves, scores, n) == (Some(moves[k]), scores[k]) && IsFirstBest(scores, k, n)
  {
    if n > 0 {
      ChoiceIsFirstBest(moves, scores, n - 1);
      if n == 1 {
        assert IsFirstBest(scores, 0, 1);
      } else {
        var k :| 0 <= k < n - 1 && Choice(moves, scores, n - 1) == (Some(moves[k]), scores[k]) && IsFirstBest(scores, k, n - 1);
        if Less(scores[k], scores[n - 1]) {
          assert IsFirstBest(scores, n - 1, n);
        } else {
          assert IsFirstBest(scores, k, n);
        }
      }
    }
  }

  /** The selector returns no move exactly on a full board; otherwise it
      returns the first valid move, in row-major order, whose score is
      the greatest. */
  lemma BestMoveIsFirstBest(b: Grid)
    ensures BestMove(b) == None <==> IsFull(b)
    ensures BestMove(b).Some? ==>
      exists k :: 0 <= k < |ValidMoves(b)| && BestMove(b) == Some(ValidMoves(b)[k]) && IsFirstBest(MoveScores(b), k, |ValidMoves(b)|)
  {
    ValidMovesAreEmptyCells(b);
    forall j | 0 <= j < |ValidMoves(b)|
      ensures MoveScores(b)[j].Fin?
    {
      MoveScoreBounds(b, j);
    }
    ChoiceIsFirstBest(ValidMoves(b), MoveScores(b), |ValidMoves(b)|);
  }

  /** When some valid move completes a line of O, the selector returns the
      first such move. */
  lemma BestMoveTakesFirstWin(b: Grid, k: nat)
    requires k < |ValidMoves(b)|
    requires IsWinner(Place(b, ValidMoves(b)[k], O), O)
    requires forall j :: 0 <= j < k ==> !IsWinner(Place(b, ValidMoves(b)[j], O), O)
    ensures BestMove(b) == Some(ValidMoves(b)[k])
  {
    var moves := ValidMoves(b);
    BestMoveIsFirstBest(b);
    var k' :| 0 <= k' < |moves| && BestMove(b) == Some(moves[k']) && IsFirstBest(MoveScores(b), k', |moves|);
    MoveScoreBounds(b, k);
    MoveScoreBounds(b, k');
    assert Le(MoveScore(b, k), MoveScore(b, k'));
    assert MoveScore(b, k') == Fin(10);
    assert k <= k';
    assert !Less(MoveScore(b, k), MoveScore(b, k'));
  }

  /** One candidate of find_best_move: O plays `m` on the shared board,
      the exhaustive search scores the result, the move is undone. */
  method TryMove(board: array<Cell>, m: Move) returns (score: ExtInt)
    requires board.Length == 9 && board[m] == Empty
    modifies board
    ensures board[..] == old(board[..])
    ensures score == Value(Place(old(board[..]), m, O), 0, false)
  {
    ghost var b: Grid := board[..];
    board[m] := O;
    assert board[..] == Place(b, m, O);
    score := MinimaxSearch(board, 0, false);
    board[m] := Empty;
    assert board[..] == b;
  }

  /** find_best_move as written: try O on each valid move in turn, score it
      with the exhaustive search, undo it, keep the first best. */
  method FindBestMove(board: array<Cell>) returns (bestMove: Option<Move>)
    requires board.Length == 9
    modifies board
    ensures board[..] == old(board[..])
    ensures bestMove == BestMove(old(board[..]))
  {
    var bestScore := NegInf;
    bestMove := None;
    ghost var b: Grid := board[..];
    ghost var scores := MoveScores(b);
    var moves := ValidMoves(board[..]);
    for i := 0 to |moves|
      invariant board[..] == b
      invariant (bestMove, bestScore) == Choice(moves, scores, i)
    {
      var m := moves[i];
      var score := TryMove(board, m);
      assert score == scores[i];
      if Less(bestScore, score) {
        bestScore := score;
        bestMove := Some(m);
      }
    }
  }
}
