/** The computer opponent: a full-depth minimax search.  The search always
    maximises for X and minimises for O, whatever symbol the computer
    actually plays. */
module Search {
  import opened Board

  /** Stand-ins for the search's -Infinity and Infinity: every score lies
      strictly between them. */
  const NegInf: int := -11
  const PosInf: int := 11

  function Max(a: int, b: int): int { if a >= b then a else b }
  function Min(a: int, b: int): int { if a <= b then a else b }

  /** `evaluateBoard`: 10 when the first completed line is X, -10 when it
      holds any other symbol, 0 when no line is complete. */
  function EvaluateBoard(b: Board): (r: int)
    ensures r == 0 <==> CheckWinner(b).None?
    ensures r == 10 <==> CheckWinner(b) == Some(X)
    ensures r == -10 <==> CheckWinner(b).Some? && CheckWinner(b).value != X
  {
    match CheckWinner(b)
    case Some(w) => if w == X then 10 else -10
    case None => 0
  }

  /** `minimax(board, depth, isMaximizing)`; its scores are bounded by
      MinimaxBounded and characterised by MinimaxTerminal, MinimaxMaxNode
      and MinimaxMinNode. */
  function Minimax(b: Board, depth: nat, isMax: bool): int
    decreases CountEmpty(b), 1
  {
    var score := EvaluateBoard(b);
    if score == 10 then score - depth
    else if score == -10 then score + depth
    else
      var empties := EmptySquares(b);
      if |empties| == 0 then 0
      else if isMax then MaxOf(ChildScores(b, depth, empties, X, false), NegInf)
      else MinOf(ChildScores(b, depth, empties, O, true), PosInf)
  }

  /** The score of each child of the search loop: `sym` is placed in the
      free cell idxs[k] and the search goes one level deeper with the other
      side to move. */
  function ChildScores(b: Board, depth: nat, idxs: seq<Index>, sym: Cell, nextMax: bool): (r: seq<int>)
    requires AllFree(b, idxs)
    requires sym != Empty
    decreases CountEmpty(b), 0, |idxs|
    ensures |r| == |idxs|
  {
    if idxs == [] then []
    else
      FillOne(b, idxs[0], sym);
      [Minimax(b[idxs[0] := sym], depth + 1, nextMax)] + ChildScores(b, depth, idxs[1..], sym, nextMax)
  }

  /** Entry k of the child scores is the search below the child that fills
      idxs[k]. */
  lemma {:induction false} ChildScoreAt(b: Board, depth: nat, idxs: seq<Index>, sym: Cell, nextMax: bool, k: nat)
    requires AllFree(b, idxs)
    requires sym != Empty && k < |idxs|
    ensures ChildScores(b, depth, idxs, sym, nextMax)[k] == Minimax(b[idxs[k] := sym], depth + 1, nextMax)
    decreases k
  {
    if k > 0 {
      ChildScoreAt(b, depth, idxs[1..], sym, nextMax, k - 1);
    }
  }

  /** The maximising loop `bestScore = Math.max(score, bestScore)`, starting
      from `best`: it yields the greatest of `best` and the scores. */
  function MaxOf(scores: seq<int>, best: int): (r: int)
    ensures r >= best
    ensures forall k :: 0 <= k < |scores| ==> scores[k] <= r
    ensures r == best || r in scores
  {
    if scores == [] then best else MaxOf(scores[1..], Max(scores[0], best))
  }

  /** The minimising loop `bestScore = Math.min(score, bestScore)`, starting
      from `best`: it yields the least of `best` and the scores. */
  function MinOf(scores: seq<int>, best: int): (r: int)
    ensures r <= best
    ensures forall k :: 0 <= k < |scores| ==> r <= scores[k]
    ensures r == best || r in scores
  {
    if scores == [] then best else MinOf(scores[1..], Min(scores[0], best))
  }

  /** A decided board is scored without looking further: 10 - depth when
      the first complete line is "X", depth - 10 when it holds any other
      symbol, and 0 when the board is full with no line. */
  lemma MinimaxTerminal(b: Board, depth: nat, isMax: bool)
    ensures CheckWinner(b) == Some(X) ==> Minimax(b, depth, isMax) == 10 - depth
    ensures CheckWinner(b).Some? && CheckWinner(b).value != X ==> Minimax(b, depth, isMax) == depth - 10
    ensures CheckWinner(b).None? && IsBoardFull(b) ==> Minimax(b, depth, isMax) == 0
  {
  }

  /** On an undecided board with a free cell, the search folds the child
      scores: the maximum for X to move, the minimum for O to move. */
  lemma UndecidedNode(b: Board, depth: nat)
    requires CheckWinner(b).None? && !IsBoardFull(b)
    ensures Minimax(b, depth, true) == MaxOf(ChildScores(b, depth, EmptySquares(b), X, false), NegInf)
    ensures Minimax(b, depth, false) == MinOf(ChildScores(b, depth, EmptySquares(b), O, true), PosInf)
  {
    FullMeansNoneFree(b);
  }

  /** While the search cannot go past depth 20, every score it reaches lies
      in [-10, 10], strictly between the stand-ins for -Infinity and
      Infinity, so the stand-ins never survive a fold. */
  lemma {:induction false} MinimaxBounded(b: Board, depth: nat, isMax: bool)
    requires depth + CountEmpty(b) <= 20
    ensures -10 <= Minimax(b, depth, isMax) <= 10
    decreases CountEmpty(b), 1
  {
    if CheckWinner(b).None? && !IsBoardFull(b) {
      UndecidedNode(b, depth);
      var empties := EmptySquares(b);
      if isMax {
        var scores := ChildScores(b, depth, empties, X, false);
        ChildScoresBounded(b, depth, empties, X, false);
        assert scores[0] <= Minimax(b, depth, isMax);
      } else {
        var scores := ChildScores(b, depth, empties, O, true);
        ChildScoresBounded(b, depth, empties, O, true);
        assert Minimax(b, depth, isMax) <= scores[0];
      }
    } else {
      MinimaxTerminal(b, depth, isMax);
    }
  }

  /** Every child score lies in [-10, 10] under the same depth bound. */
  lemma {:induction false} ChildScoresBounded(b: Board, depth: nat, idxs: seq<Index>, sym: Cell, nextMax: bool)
    requires AllFree(b, idxs)
    requires sym != Empty && depth + CountEmpty(b) <= 20
    ensures forall k :: 0 <= k < |idxs| ==> -10 <= ChildScores(b, depth, idxs, sym, nextMax)[k] <= 10
    decreases CountEmpty(b), 0, |idxs|
  {
    if idxs != [] {
      FillOne(b, idxs[0], sym);
      MinimaxBounded(b[idxs[0] := sym], depth + 1, nextMax);
      ChildScoresBounded(b, depth, idxs[1..], sym, nextMax);
      var rest := ChildScores(b, depth, idxs[1..], sym, nextMax);
      assert ChildScores(b, depth, idxs, sym, nextMax) == [Minimax(b[idxs[0] := sym], depth + 1, nextMax)] + rest;
    }
  }

  /** No child that puts "X" into a free cell scores above its parent. */
  lemma MaxNodeBound(b: Board, depth: nat)
    requires CheckWinner(b).None? && !IsBoardFull(b)
    ensures forall i: Index {:trigger Minimax(b[i := X], depth + 1, false)} ::
      b[i] == Empty ==> Minimax(b[i := X], depth + 1, false) <= Minimax(b, depth, true)
  {
    var empties := EmptySquares(b);
    UndecidedNode(b, depth);
    forall i: Index | b[i] == Empty
      ensures Minimax(b[i := X], depth + 1, false) <= Minimax(b, depth, true)
    {
      EmptySquaresListsFree(b, i);
      var k :| 0 <= k < |empties| && empties[k] == i;
      ChildScoreAt(b, depth, empties, X, false, k);
    }
  }

  /** No child that puts "O" into a free cell scores below its parent. */
  lemma MinNodeBound(b: Board, depth: nat)
    requires CheckWinner(b).None? && !IsBoardFull(b)
    ensures forall i: Index {:trigger Minimax(b[i := O], depth + 1, true)} ::
      b[i] == Empty ==> Minimax(b, depth, false) <= Minimax(b[i := O], depth + 1, true)
  {
    var empties := EmptySquares(b);
    UndecidedNode(b, depth);
    forall i: Index | b[i] == Empty
      ensures Minimax(b, depth, false) <= Minimax(b[i := O], depth + 1, true)
    {
      EmptySquaresListsFree(b, i);
      var k :| 0 <= k < |empties| && empties[k] == i;
      ChildScoreAt(b, depth, empties, O, true, k);
    }
  }

  /** A maximum folded from a stand-in below every score is one of the
      scores. */
  lemma MaxOfAttained(scores: seq<int>, best: int)
    requires |scores| > 0 && forall k :: 0 <= k < |scores| ==> best < scores[k]
    ensures exists k :: 0 <= k < |scores| && MaxOf(scores, best) == scores[k]
  {
    assert scores[0] <= MaxOf(scores, best);
  }

  /** A minimum folded from a stand-in above every score is one of the
      scores. */
  lemma MinOfAttained(scores: seq<int>, best: int)
    requires |scores| > 0 && forall k :: 0 <= k < |scores| ==> scores[k] < best
    ensures exists k :: 0 <= k < |scores| && MinOf(scores, best) == scores[k]
  {
    assert MinOf(scores, best) <= scores[0];
  }

  /** With "X" to move on an undecided board, the score is that of some
      child that puts "X" into a free cell (and, by MaxNodeBound, no child
      scores higher): the search takes the maximum over the children. */
  lemma MinimaxMaxNode(b: Board, depth: nat)
    requires depth + CountEmpty(b) <= 20
    requires CheckWinner(b).None? && !IsBoardFull(b)
    ensures exists i: Index {:trigger Minimax(b[i := X], depth + 1, false)} ::
      b[i] == Empty && Minimax(b, depth, true) == Minimax(b[i := X], depth + 1, false)
  {
    var empties := EmptySquares(b);
    var scores := ChildScores(b, depth, empties, X, false);
    UndecidedNode(b, depth);
    FullMeansNoneFree(b);
    ChildScoresBounded(b, depth, empties, X, false);
    MaxOfAttained(scores, NegInf);
    var k :| 0 <= k < |scores| && MaxOf(scores, NegInf) == scores[k];
    ChildScoreAt(b, depth, empties, X, false, k);
    var i := empties[k];
    assert b[i] == Empty && Minimax(b, depth, true) == Minimax(b[i := X], depth + 1, false);
  }

  /** With "O" to move on an undecided board, the score is that of some
      child that puts "O" into a free cell (and, by MinNodeBound, no child
      scores lower): the search takes the minimum over the children. */
  lemma MinimaxMinNode(b: Board, depth: nat)
    requires depth + CountEmpty(b) <= 20
    requires CheckWinner(b).None? && !IsBoardFull(b)
    ensures exists i: Index {:trigger Minimax(b[i := O], depth + 1, true)} ::
      b[i] == Empty && Minimax(b, depth, false) == Minimax(b[i := O], depth + 1, true)
  {
    var empties := EmptySquares(b);
    var scores := ChildScores(b, depth, empties, O, true);
    UndecidedNode(b, depth);
    FullMeansNoneFree(b);
    ChildScoresBounded(b, depth, empties, O, true);
    MinOfAttained(scores, PosInf);
    var k :| 0 <= k < |scores| && MinOf(scores, PosInf) == scores[k];
    ChildScoreAt(b, depth, empties, O, true, k);
    var i := empties[k];
    assert b[i] == Empty && Minimax(b, depth, false) == Minimax(b[i := O], depth + 1, true);
  }

  /** From any depth up to 9 (a grid has at most nine free cells, so the
      search never goes past depth 18) every score lies in [-10, 10]. */
  lemma MinimaxRange(b: Board, depth: nat, isMax: bool)
    requires depth <= 9
    ensures -10 <= Minimax(b, depth, isMax) <= 10
  {
    CountEmptyAtMostNine(b);
    MinimaxBounded(b, depth, isMax);
  }

  /** The score the root loop gives to a free cell i: X is placed there
      and the search continues with O to move.  It is a real score, above
      the -Infinity stand-in the loop starts from. */
  function RootScore(b: Board, i: Index): (r: int)
    ensures -10 <= r <= 10
  {
    MinimaxRange(b[i := X], 0, false);
    Minimax(b[i := X], 0, false)
  }

  /** m is the first free cell, in increasing order, whose root score is
      strictly greater than that of every earlier free cell and no smaller
      than that of any later one. */
  ghost predicate IsFirstBest(b: Board, m: Index)
  {
    && b[m] == Empty
    && (forall i: Index {:trigger RootScore(b, i)} :: b[i] == Empty ==> RootScore(b, i) <= RootScore(b, m))
    && (forall i: Index {:trigger RootScore(b, i)} :: i < m && b[i] == Empty ==> RootScore(b, i) < RootScore(b, m))
  }

  /** The root loop of `getAIMove`: scan the candidates in order, starting
      from a best score below every score, and keep the first one whose
      score is strictly greater than the best so far.  The result is a
      candidate no other beats, and every candidate before it scores
      strictly less. */
  method FirstBest(cands: seq<Index>, score: Index -> int) returns (m: Index, ghost p: nat)
    requires |cands| > 0
    requires forall j :: 0 <= j < |cands| ==> NegInf < score(cands[j])
    ensures p < |cands| && cands[p] == m
    ensures forall j :: 0 <= j < |cands| ==> score(cands[j]) <= score(m)
    ensures forall j :: 0 <= j < p ==> score(cands[j]) < score(m)
  {
    var bestScore := NegInf;
    m, p := cands[0], 0;
    var k := 0;
    while k < |cands|
      invariant 0 <= k <= |cands|
      invariant p < |cands| && cands[p] == m
      invariant k == 0 ==> bestScore == NegInf && p == 0
      invariant k > 0 ==> bestScore == score(m) && p < k
      invariant forall j :: 0 <= j < k ==> score(cands[j]) <= bestScore
      invariant forall j :: 0 <= j < p ==> score(cands[j]) < bestScore
    {
      var s := score(cands[k]);
      if s > bestScore {
        bestScore := s;
        m, p := cands[k], k;
      }
      k := k + 1;
    }
  }

  /** Over the free cells in increasing order, the first position whose
      score no other beats holds the lowest-numbered free cell among those
      with the greatest score. */
  lemma ScanFindsFirstBest(b: Board, score: Index -> int, m: Index, p: nat)
    requires p < |EmptySquares(b)| && EmptySquares(b)[p] == m
    requires forall j :: 0 <= j < |EmptySquares(b)| ==> score(EmptySquares(b)[j]) <= score(m)
    requires forall j :: 0 <= j < p ==> score(EmptySquares(b)[j]) < score(m)
    ensures b[m] == Empty
    ensures forall i: Index :: b[i] == Empty ==> score(i) <= score(m)
    ensures forall i: Index :: i < m && b[i] == Empty ==> score(i) < score(m)
  {
    var empties := EmptySquares(b);
    forall i: Index | b[i] == Empty
      ensures score(i) <= score(m) && (i < m ==> score(i) < score(m))
    {
      EmptySquaresListsFree(b, i);
      var j :| 0 <= j < |empties| && empties[j] == i;
      if p < j {
        EmptySquaresOrdered(b, p, j);
      }
    }
  }

  /** `getAIMove`: the first free cell, in increasing order, with the best
      root score.  The board is a value, so the caller's board cannot
      change. */
  method GetAIMove(b: Board) returns (m: Index)
    requires Empty in b
    ensures IsFirstBest(b, m)
  {
    var empties := EmptySquares(b);
    FullMeansNoneFree(b);
    ghost var p;
    m, p := FirstBest(empties, (i: Index) => RootScore(b, i));
    ScanFindsFirstBest(b, (i: Index) => RootScore(b, i), m, p);
  }
}
