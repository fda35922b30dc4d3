/** The pruned search (`alpha_beta_pruning`) and its move selector
    (`find_best_move`).

    `Value` is the pruned search as a function of the board and the window
    (alpha, beta); `AlphaBetaPruning` is the search as written, on a shared
    board that it marks and unmarks in place. The search returns its
    running best even when that falls outside the window ("fail-soft"), and
    `ValueSound` relates it to the exhaustive value `Minimax.Value`: inside
    the window the two agree, and outside it the pruned value is a bound
    on the exhaustive one. With the full window they are equal, so both
    selectors choose the same move. */
module AlphaBeta {
  import opened Scores
  import opened Board
  import Minimax

  /** The value the pruned search returns for `b` at `depth` with window
      (alpha, beta): the same terminal scores as the exhaustive search;
      otherwise the children are tried in row-major order until the window
      closes. */
  function Value(b: Grid, depth: int, alpha: ExtInt, beta: ExtInt, maximizing: bool): ExtInt
    decreases |ValidMoves(b)|, 1
  {
    if IsWinner(b, O) then Fin(10 - depth)
    else if IsWinner(b, X) then Fin(depth - 10)
    else if IsDraw(b) then Fin(0)
    else Loop(b, 0, depth, alpha, beta, maximizing, Minimax.Seed(maximizing))
  }

  /** The rest of the loop over the valid moves from the `i`-th on, with the
      running window (alpha, beta) and running best `best`. A maximizing
      node raises alpha, a minimizing node lowers beta, and the loop stops
      as soon as beta <= alpha. */
  function Loop(b: Grid, i: nat, depth: int, alpha: ExtInt, beta: ExtInt, maximizing: bool, best: ExtInt): ExtInt
    requires i <= |ValidMoves(b)|
    decreases |ValidMoves(b)|, 0, |ValidMoves(b)| - i
  {
    if i == |ValidMoves(b)| then best
    else
      var score := ChildValue(b, i, depth, alpha, beta, maximizing);
      if maximizing then
        var best' := Max(best, score);
        var alpha' := Max(alpha, best');
        if Le(beta, alpha') then best' else Loop(b, i + 1, depth, alpha', beta, maximizing, best')
      else
        var best' := Min(best, score);
        var beta' := Min(beta, best');
        if Le(beta', alpha) then best' else Loop(b, i + 1, depth, alpha, beta', maximizing, best')
  }

  /** The pruned value of the `j`-th child, searched one ply deeper by the
      other side with the same window. */
  function ChildValue(b: Grid, j: nat, depth: int, alpha: ExtInt, beta: ExtInt, maximizing: bool): ExtInt
    requires j < |ValidMoves(b)|
    decreases |ValidMoves(b)|, 0, 0
  {
    Value(Minimax.Child(b, j, maximizing), depth + 1, alpha, beta, !maximizing)
  }

  /** The fail-soft relation between a pruned result `r` computed with
      window (alpha, beta) and the exact value `v`: a result at or below
      alpha is an upper bound on `v`, a result at or above beta is a lower
      bound, and a result strictly inside the window is exact. */
  predicate FailSoft(r: ExtInt, v: ExtInt, alpha: ExtInt, beta: ExtInt) {
    && (Le(r, alpha) ==> Le(v, r))
    && (Le(beta, r) ==> Le(r, v))
    && (Less(alpha, r) && Less(r, beta) ==> r == v)
  }

  /** One maximizing step without a cutoff keeps the loop invariant of
      MaxLoopSound; with a cutoff the new best is a lower bound beyond beta. */
  lemma MaxStep(alpha0: ExtInt, beta: ExtInt, alpha: ExtInt, best: ExtInt, exact: ExtInt, score: ExtInt, v: ExtInt)
    requires Less(alpha0, beta) && alpha == Max(alpha0, best) && Less(alpha, beta)
    requires Le(exact, best) && (Less(alpha0, best) ==> exact == best)
    requires FailSoft(score, v, alpha, beta)
    ensures Le(beta, Max(alpha, Max(best, score))) ==> Le(beta, Max(best, score)) && Le(Max(best, score), v)
    ensures !Le(beta, Max(alpha, Max(best, score))) ==>
      && Max(alpha, Max(best, score)) == Max(alpha0, Max(best, score))
      && Le(Max(exact, v), Max(best, score))
      && (Less(alpha0, Max(best, score)) ==> Max(exact, v) == Max(best, score))
  {
  }

  /** The minimizing mirror of MaxStep. */
  lemma MinStep(alpha: ExtInt, beta0: ExtInt, beta: ExtInt, best: ExtInt, exact: ExtInt, score: ExtInt, v: ExtInt)
    requires Less(alpha, beta0) && beta == Min(beta0, best) && Less(alpha, beta)
    requires Le(best, exact) && (Less(best, beta0) ==> exact == best)
    requires FailSoft(score, v, alpha, beta)
    ensures Le(Min(beta, Min(best, score)), alpha) ==> Le(Min(best, score), alpha) && Le(v, Min(best, score))
    ensures !Le(Min(beta, Min(best, score)), alpha) ==>
      && Min(beta, Min(best, score)) == Min(beta0, Min(best, score))
      && Le(Min(best, score), Min(exact, v))
      && (Less(Min(best, score), beta0) ==> Min(exact, v) == Min(best, score))
  {
  }

  /** Pruning is sound: with a non-empty window, the pruned value and the
      exhaustive value are in the fail-soft relation. */
  lemma {:induction false} ValueSound(b: Grid, depth: int, alpha: ExtInt, beta: ExtInt, maximizing: bool)
    requires Less(alpha, beta)
    ensures FailSoft(Value(b, depth, alpha, beta, maximizing), Minimax.Value(b, depth, maximizing), alpha, beta)
    decreases |ValidMoves(b)|, 1
  {
    if !Minimax.IsTerminal(b) {
      if maximizing {
        MaxLoopSound(b, 0, depth, alpha, beta, alpha, NegInf);
      } else {
        MinLoopSound(b, 0, depth, alpha, beta, beta, PosInf);
      }
    }
  }

  /** The maximizing loop, entered at move `i` with running alpha `alpha`
      and running best `best`, is fail-soft with respect to the node's
      original window (alpha0, beta) and the exhaustive value. */
  lemma {:induction false} MaxLoopSound(b: Grid, i: nat, depth: int, alpha0: ExtInt, beta: ExtInt, alpha: ExtInt, best: ExtInt)
    requires i <= |ValidMoves(b)|
    requires Less(alpha0, beta) && alpha == Max(alpha0, best) && Less(alpha, beta)
    requires Le(Minimax.BestOfMoves(b, i, depth, true), best)
    requires Less(alpha0, best) ==> Minimax.BestOfMoves(b, i, depth, true) == best
    ensures FailSoft(Loop(b, i, depth, alpha, beta, true, best), Minimax.BestOfMoves(b, |ValidMoves(b)|, depth, true), alpha0, beta)
    decreases |ValidMoves(b)|, 0, |ValidMoves(b)| - i
  {
    var n := |ValidMoves(b)|;
    if i < n {
      var child := Minimax.Child(b, i, true);
      ValueSound(child, depth + 1, alpha, beta, false);
      var score := Value(child, depth + 1, alpha, beta, false);
      var v := Minimax.ChildValue(b, i, depth, true);
      var exact := Minimax.BestOfMoves(b, i, depth, true);
      assert Minimax.BestOfMoves(b, i + 1, depth, true) == Max(exact, v);
      MaxStep(alpha0, beta, alpha, best, exact, score, v);
      var best' := Max(best, score);
      var alpha' := Max(alpha, best');
      if Le(beta, alpha') {
        assert Loop(b, i, depth, alpha, beta, true, best) == best';
        Minimax.BestOfMovesMonotone(b, i + 1, n, depth, true);
      } else {
        assert Loop(b, i, depth, alpha, beta, true, best) == Loop(b, i + 1, depth, alpha', beta, true, best');
        MaxLoopSound(b, i + 1, depth, alpha0, beta, alpha', best');
      }
    }
  }

  /** The minimizing mirror of MaxLoopSound. */
  lemma {:induction false} MinLoopSound(b: Grid, i: nat, depth: int, alpha: ExtInt, beta0: ExtInt, beta: ExtInt, best: ExtInt)
    requires i <= |ValidMoves(b)|
    requires Less(alpha, beta0) && beta == Min(beta0, best) && Less(alpha, beta)
    requires Le(best, Minimax.BestOfMoves(b, i, depth, false))
    requires Less(best, beta0) ==> Minimax.BestOfMoves(b, i, depth, false) == best
    ensures FailSoft(Loop(b, i, depth, alpha, beta, false, best), Minimax.BestOfMoves(b, |ValidMoves(b)|, depth, false), alpha, beta0)
    decreases |ValidMoves(b)|, 0, |ValidMoves(b)| - i
  {
    var n := |ValidMoves(b)|;
    if i < n {
      var child := Minimax.Child(b, i, false);
      ValueSound(child, depth + 1, alpha, beta, true);
      var score := Value(child, depth + 1, alpha, beta, true);
      var v := Minimax.ChildValue(b, i, depth, false);
      var exact := Minimax.BestOfMoves(b, i, depth, false);
      assert Minimax.BestOfMoves(b, i + 1, depth, false) == Min(exact, v);
      MinStep(alpha, beta0, beta, best, exact, score, v);
      var best' := Min(best, score);
      var beta' := Min(beta, best');
      if Le(beta', alpha) {
        assert Loop(b, i, depth, alpha, beta, false, best) == best';
        Minimax.BestOfMovesMonotone(b, i + 1, n, depth, false);
      } else {
        assert Loop(b, i, depth, alpha, beta, false, best) == Loop(b, i + 1, depth, alpha, beta', false, best');
        MinLoopSound(b, i + 1, depth, alpha, beta0, beta', best');
      }
    }
  }

  /** With the initial window (-inf, +inf) the pruned search returns
      exactly the exhaustive value. */
  lemma FullWindowIsExact(b: Grid, depth: int, maximizing: bool)
    ensures Value(b, depth, NegInf, PosInf, maximizing) == Minimax.Value(b, depth, maximizing)
  {
    ValueSound(b, depth, NegInf, PosInf, maximizing);
  }

  /** Scoring a candidate with the pruned search and the full window gives
      the exhaustive selector's score for it. */
  lemma PrunedMoveScore(b: Grid, j: nat)
    requires j < |ValidMoves(b)|
    ensures Value(Place(b, ValidMoves(b)[j], O), 0, NegInf, PosInf, false) == Minimax.MoveScores(b)[j]
  {
    FullWindowIsExact(Place(b, ValidMoves(b)[j], O), 0, false);
  }

  /** alpha_beta_pruning as written: place each valid move in the shared
      board, search one ply deeper for the other side with the current
      window, undo the move, update the best and the window, and stop
      once beta <= alpha. */
  method AlphaBetaPruning(board: array<Cell>, depth: int, alpha: ExtInt, beta: ExtInt, maximizing: bool)
    returns (score: ExtInt)
    requires board.Length == 9
    modifies board
    ensures board[..] == old(board[..])
    ensures score == Value(old(board[..]), depth, alpha, beta, maximizing)
    decreases |ValidMoves(board[..])|, 1
  {
    if IsWinner(board[..], O) {
      return Fin(10 - depth);
    }
    if IsWinner(board[..], X) {
      return Fin(depth - 10);
    }
    if IsDraw(board[..]) {
      return Fin(0);
    }
    ghost var b: Grid := board[..];
    ghost var result := Value(b, depth, alpha, beta, maximizing);
    var moves := ValidMoves(board[..]);
    score := Minimax.Seed(maximizing);
    // The running window, narrowed as the loop goes.
    var lo, hi := alpha, beta;
    for i := 0 to |moves|
      invariant board[..] == b
      invariant Loop(b, i, depth, lo, hi, maximizing, score) == result
    {
      var s := SearchChild(board, moves[i], i, depth, lo, hi, maximizing);
      if maximizing {
        score := Max(score, s);
        lo := Max(lo, score);
      } else {
        score := Min(score, s);
        hi := Min(hi, score);
      }
      if Le(hi, lo) {
        break;
      }
    }
  }

  /** One step of the search loop: the side to move marks `m`, the `j`-th
      valid move, the other side searches one ply deeper with the current
      window, the mark is removed. */
  method SearchChild(board: array<Cell>, m: Move, ghost j: nat, depth: int, alpha: ExtInt, beta: ExtInt, maximizing: bool)
    returns (score: ExtInt)
    requires board.Length == 9
    requires j < |ValidMoves(board[..])| && m == ValidMoves(board[..])[j]
    modifies board
    ensures board[..] == old(board[..])
    ensures score == ChildValue(old(board[..]), j, depth, alpha, beta, maximizing)
    decreases |ValidMoves(board[..])|, 0
  {
    ghost var b: Grid := board[..];
    board[m] := Minimax.Mark(maximizing);
    assert board[..] == Minimax.Child(b, j, maximizing);
    score := AlphaBetaPruning(board, depth + 1, alpha, beta, !maximizing);
    board[m] := Empty;
    assert board[..] == b;
  }

  /** One candidate of find_best_move: O plays `m` on the shared board,
      the pruned search scores the result with the full window, the move
      is undone. */
  method TryMove(board: array<Cell>, m: Move) returns (score: ExtInt)
    requires board.Length == 9 && board[m] == Empty
    modifies board
    ensures board[..] == old(board[..])
    ensures score == Value(Place(old(board[..]), m, O), 0, NegInf, PosInf, false)
  {
    ghost var b: Grid := board[..];
    board[m] := O;
    assert board[..] == Place(b, m, O);
    score := AlphaBetaPruning(board, 0, NegInf, PosInf, false);
    board[m] := Empty;
    assert board[..] == b;
  }

  /** find_best_move of the pruned variant: the same loop as the exhaustive
      selector, scoring each candidate with the pruned search and the full
      window. It returns the move the exhaustive selector returns. */
  method FindBestMove(board: array<Cell>) returns (bestMove: Option<Move>)
    requires board.Length == 9
    modifies board
    ensures board[..] == old(board[..])
    ensures bestMove == Minimax.BestMove(old(board[..]))
  {
    var bestScore := NegInf;
    bestMove := None;
    ghost var b: Grid := board[..];
    ghost var scores := Minimax.MoveScores(b);
    var moves := ValidMoves(board[..]);
    for i := 0 to |moves|
      invariant board[..] == b
      invariant (bestMove, bestScore) == Minimax.Choice(moves, scores, i)
    {
      var m := moves[i];
      var score := TryMove(board, m);
      PrunedMoveScore(b, i);
      if Less(bestScore, score) {
        bestScore := score;
        bestMove := Some(m);
      }
    }
  }
}
