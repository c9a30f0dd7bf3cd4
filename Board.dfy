/** The 3x3 grid and its evaluation: which line (if any) is completed, and
    whether any cell is still free. */
module Board {

  datatype Option<T> = None | Some(value: T)

  /** A cell holds the symbol a client declared when it joined, or the
      empty string '' of a free cell.  Symbols are taken to be strings,
      compared only for equality and against the literals '', 'X' and
      'O', so they are represented by tokens: Empty, X, O, and Other(n)
      for any other string (distinct strings, distinct n). */
  datatype Cell = Empty | X | O | Other(n: nat)

  /** A position on the grid, 0..8 in row-major order. */
  type Index = i: nat | i < 9

  /** The grid is always exactly nine cells long. */
  type Board = b: seq<Cell> | |b| == 9 witness [Empty, Empty, Empty, Empty, Empty, Empty, Empty, Empty, Empty]

  /** `Array(9).fill('')`. */
  function NewBoard(): (b: Board)
    ensures forall i :: 0 <= i < 9 ==> b[i] == Empty
  {
    seq(9, _ => Empty)
  }

  datatype Line = Line(a: Index, b: Index, c: Index)

  /** The eight lines in the order the server scans them: rows, columns,
      then the two diagonals. */
  const Lines: seq<Line> := [
    Line(0, 1, 2), Line(3, 4, 5), Line(6, 7, 8),
    Line(0, 3, 6), Line(1, 4, 7), Line(2, 5, 8),
    Line(0, 4, 8), Line(2, 4, 6)
  ]

  /** Line k holds three equal, non-empty cells. */
  predicate Won(b: Board, k: nat)
    requires k < |Lines|
  {
    var l := Lines[k];
    b[l.a] != Empty && b[l.a] == b[l.b] && b[l.b] == b[l.c]
  }

  /** Line k is the first completed line in scan order. */
  predicate FirstWon(b: Board, k: nat)
    requires k < |Lines|
  {
    Won(b, k) && forall j :: 0 <= j < k ==> !Won(b, j)
  }

  /** The scan of `checkWinner`, resumed at line k. */
  function WinnerFrom(b: Board, k: nat): (r: Option<Cell>)
    requires k <= |Lines|
    decreases |Lines| - k
    ensures r.Some? ==> r.value != Empty
  {
    if k == |Lines| then None
    else if Won(b, k) then Some(b[Lines[k].a])
    else WinnerFrom(b, k + 1)
  }

  /** `checkWinner`: the symbol of the first completed line, if any. */
  function CheckWinner(b: Board): (r: Option<Cell>)
    ensures r.Some? ==> r.value != Empty
  {
    WinnerFrom(b, 0)
  }

  /** The scan from line k finds nothing exactly when no line from k on is
      complete. */
  lemma {:induction false} WinnerFromNone(b: Board, k: nat)
    requires k <= |Lines|
    decreases |Lines| - k
    ensures WinnerFrom(b, k).None? <==> forall j :: k <= j < |Lines| ==> !Won(b, j)
  {
    if k < |Lines| && !Won(b, k) {
      WinnerFromNone(b, k + 1);
    }
  }

  /** When the scan from line k finds a symbol, it is that of the first
      complete line from k on. */
  lemma {:induction false} WinnerFromSome(b: Board, k: nat)
    requires k <= |Lines|
    decreases |Lines| - k
    ensures WinnerFrom(b, k).Some? ==>
      exists j :: k <= j < |Lines| && Won(b, j) && WinnerFrom(b, k).value == b[Lines[j].a]
                  && forall i :: k <= i < j ==> !Won(b, i)
  {
    if k < |Lines| && !Won(b, k) {
      WinnerFromSome(b, k + 1);
    }
  }

  /** `checkWinner` returns None exactly when no line is complete, and
      otherwise the symbol of the first complete line in scan order. */
  lemma CheckWinnerFindsFirst(b: Board)
    ensures CheckWinner(b).None? <==> forall j :: 0 <= j < |Lines| ==> !Won(b, j)
    ensures CheckWinner(b).Some? ==>
      exists j :: 0 <= j < |Lines| && FirstWon(b, j) && CheckWinner(b).value == b[Lines[j].a]
  {
    WinnerFromNone(b, 0);
    WinnerFromSome(b, 0);
  }

  /** Every index listed names a free cell. */
  predicate AllFree(b: Board, idxs: seq<Index>)
  {
    forall k :: 0 <= k < |idxs| ==> b[idxs[k]] == Empty
  }

  /** The indices of the free cells, in increasing order, from index i on. */
  function EmptyFrom(b: Board, i: nat): (r: seq<Index>)
    requires i <= 9
    decreases 9 - i
    ensures AllFree(b, r)
  {
    if i == 9 then []
    else if b[i] == Empty then [i as Index] + EmptyFrom(b, i + 1)
    else EmptyFrom(b, i + 1)
  }

  /** `board.map(...).filter(...)`: the free cells, listed by
      EmptySquaresExact. */
  function EmptySquares(b: Board): (r: seq<Index>)
    ensures AllFree(b, r)
  {
    EmptyFrom(b, 0)
  }

  /** The scan from index i lists only indices from i on. */
  lemma {:induction false} EmptyFromAbove(b: Board, i: nat)
    requires i <= 9
    decreases 9 - i
    ensures forall k :: 0 <= k < |EmptyFrom(b, i)| ==> i <= EmptyFrom(b, i)[k]
  {
    if i < 9 {
      EmptyFromAbove(b, i + 1);
      var rest := EmptyFrom(b, i + 1);
      if b[i] == Empty {
        assert forall k :: 0 < k <= |rest| ==> EmptyFrom(b, i)[k] == rest[k - 1];
      }
    }
  }

  /** The scan from index i misses no free cell from i on. */
  lemma {:induction false} EmptyFromComplete(b: Board, i: nat)
    requires i <= 9
    decreases 9 - i
    ensures forall j :: i <= j < 9 && b[j] == Empty ==> j in EmptyFrom(b, i)
  {
    if i < 9 {
      EmptyFromComplete(b, i + 1);
      var rest := EmptyFrom(b, i + 1);
      assert EmptyFrom(b, i) == (if b[i] == Empty then [i as Index] else []) + rest;
    }
  }

  /** The scan from index i lists its indices in strictly increasing
      order. */
  lemma {:induction false} EmptyFromIncreasing(b: Board, i: nat)
    requires i <= 9
    decreases 9 - i
    ensures forall k, l :: 0 <= k < l < |EmptyFrom(b, i)| ==> EmptyFrom(b, i)[k] < EmptyFrom(b, i)[l]
  {
    if i < 9 {
      EmptyFromIncreasing(b, i + 1);
      EmptyFromAbove(b, i + 1);
      var rest := EmptyFrom(b, i + 1);
      if b[i] == Empty {
        assert forall k :: 0 < k <= |rest| ==> EmptyFrom(b, i)[k] == rest[k - 1];
      }
    }
  }

  /** The scan from index i lists exactly the free cells from i on, each
      once, in increasing order. */
  lemma EmptyFromExact(b: Board, i: nat)
    requires i <= 9
    ensures forall k :: 0 <= k < |EmptyFrom(b, i)| ==> i <= EmptyFrom(b, i)[k] && b[EmptyFrom(b, i)[k]] == Empty
    ensures forall j :: i <= j < 9 && b[j] == Empty ==> j in EmptyFrom(b, i)
    ensures forall k, l :: 0 <= k < l < |EmptyFrom(b, i)| ==> EmptyFrom(b, i)[k] < EmptyFrom(b, i)[l]
  {
    EmptyFromAbove(b, i);
    EmptyFromComplete(b, i);
    EmptyFromIncreasing(b, i);
  }

  /** The free cells are listed exactly, each once, in increasing order. */
  lemma EmptySquaresExact(b: Board)
    ensures forall k :: 0 <= k < |EmptySquares(b)| ==> b[EmptySquares(b)[k]] == Empty
    ensures forall j :: 0 <= j < 9 && b[j] == Empty ==> j in EmptySquares(b)
    ensures forall k, l :: 0 <= k < l < |EmptySquares(b)| ==> EmptySquares(b)[k] < EmptySquares(b)[l]
  {
    EmptyFromExact(b, 0);
  }

  /** Every free cell has a position in the free-cell list. */
  lemma EmptySquaresListsFree(b: Board, i: Index)
    requires b[i] == Empty
    ensures exists j :: 0 <= j < |EmptySquares(b)| && EmptySquares(b)[j] == i
  {
    EmptySquaresExact(b);
    assert i in EmptySquares(b);
  }

  /** A later position in the free-cell list holds a larger index. */
  lemma EmptySquaresOrdered(b: Board, j: nat, l: nat)
    requires j < l < |EmptySquares(b)|
    ensures EmptySquares(b)[j] < EmptySquares(b)[l]
  {
    EmptySquaresExact(b);
  }

  /** The number of free cells from index i on. */
  function CountFrom(b: Board, i: nat): nat
    requires i <= 9
    decreases 9 - i
  {
    if i == 9 then 0 else (if b[i] == Empty then 1 else 0) + CountFrom(b, i + 1)
  }

  /** The number of free cells; it measures how far the game can still go. */
  function CountEmpty(b: Board): nat
  {
    CountFrom(b, 0)
  }

  /** `board.every(cell => cell !== '')`. */
  function IsBoardFull(b: Board): (r: bool)
    ensures r <==> forall i :: 0 <= i < 9 ==> b[i] != Empty
  {
    Empty !in b
  }

  /** No cell from i on is free exactly when none is counted from i on. */
  lemma {:induction false} CountFromZero(b: Board, i: nat)
    requires i <= 9
    decreases 9 - i
    ensures CountFrom(b, i) == 0 <==> forall j :: i <= j < 9 ==> b[j] != Empty
    ensures CountFrom(b, i) <= 9 - i
  {
    if i < 9 {
      CountFromZero(b, i + 1);
    }
  }

  /** A full grid is one with no free cell to list and none to count. */
  lemma FullMeansNoneFree(b: Board)
    ensures IsBoardFull(b) <==> EmptySquares(b) == []
    ensures IsBoardFull(b) <==> CountEmpty(b) == 0
  {
    CountFromZero(b, 0);
    EmptySquaresExact(b);
    if !IsBoardFull(b) {
      var i :| 0 <= i < 9 && b[i] == Empty;
      assert i in EmptySquares(b);
    }
  }

  /** Writing into cell j changes the count from i on only if j >= i, and
      then by one. */
  lemma {:induction false} FillOneFrom(b: Board, j: Index, s: Cell, i: nat)
    requires b[j] == Empty && s != Empty && i <= 9
    decreases 9 - i
    ensures CountFrom(b[j := s], i) == CountFrom(b, i) - (if i <= j then 1 else 0)
  {
    if i < 9 {
      FillOneFrom(b, j, s, i + 1);
    }
  }

  /** Writing a symbol into a free cell uses up exactly one free cell. */
  lemma FillOne(b: Board, i: Index, s: Cell)
    requires b[i] == Empty && s != Empty
    ensures CountEmpty(b[i := s]) == CountEmpty(b) - 1
  {
    FillOneFrom(b, i, s, 0);
  }

  /** A grid never has more than nine free cells. */
  lemma CountEmptyAtMostNine(b: Board)
    ensures CountEmpty(b) <= 9
  {
    CountFromZero(b, 0);
  }

  /** A board whose cells from i on are all free counts 9 - i free cells
      from i on. */
  lemma {:induction false} CountFromAllFree(b: Board, i: nat)
    requires i <= 9 && forall j :: i <= j < 9 ==> b[j] == Empty
    decreases 9 - i
    ensures CountFrom(b, i) == 9 - i
  {
    if i < 9 {
      CountFromAllFree(b, i + 1);
    }
  }

  /** A fresh board has nine free cells. */
  lemma NewBoardCount()
    ensures CountEmpty(NewBoard()) == 9
  {
    CountFromAllFree(NewBoard(), 0);
  }

  /** How many of the cells p, q, r lie at index i or after. */
  function Hits(i: nat, p: Index, q: Index, r: Index): nat
  {
    (if p >= i then 1 else 0) + (if q >= i then 1 else 0) + (if r >= i then 1 else 0)
  }

  /** Three distinct occupied cells at or after i are not counted as
      free, so at most 9 - i - (their number) cells from i on are. */
  lemma {:induction false} CountFromThreeTaken(b: Board, p: Index, q: Index, r: Index, i: nat)
    requires p != q && q != r && p != r
    requires b[p] != Empty && b[q] != Empty && b[r] != Empty
    requires i <= 9
    decreases 9 - i
    ensures CountFrom(b, i) + Hits(i, p, q, r) <= 9 - i
  {
    if i < 9 {
      CountFromThreeTaken(b, p, q, r, i + 1);
    }
  }

  /** A completed line occupies three distinct cells, so a won board has
      at most six free cells. */
  lemma WonLineTakesThree(b: Board, k: nat)
    requires k < |Lines|
    ensures Won(b, k) ==> CountEmpty(b) <= 6
  {
    if Won(b, k) {
      var l := Lines[k];
      CountFromThreeTaken(b, l.a, l.b, l.c, 0);
    }
  }

  /** A board with at most two occupied cells is neither won nor full: a
      line needs three occupied cells, a full board nine. */
  lemma FewTakenUndecided(b: Board)
    requires CountEmpty(b) >= 7
    ensures CheckWinner(b).None? && !IsBoardFull(b)
  {
    FullMeansNoneFree(b);
    CheckWinnerFindsFirst(b);
    forall k | 0 <= k < |Lines|
      ensures !Won(b, k)
    {
      WonLineTakesThree(b, k);
    }
  }
}
