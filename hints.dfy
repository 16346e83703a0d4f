/** giveHint and solvePuzzle: the two ways the player's board is patched from the
    solution. */
module Hints {
  import opened Grid

  /** The first empty cell at or after index k in row-major order, if any. */
  function FirstEmpty(s: seq<int>, k: nat): (r: Option<nat>)
    requires k <= |s|
    decreases |s| - k
    ensures r.Some? ==> k <= r.value < |s| && s[r.value] == 0 &&
                        forall q :: k <= q < r.value ==> s[q] != 0
    ensures r.None? <==> forall q :: k <= q < |s| ==> s[q] != 0
  {
    if k == |s| then None
    else if s[k] == 0 then Some(k)
    else FirstEmpty(s, k + 1)
  }

  /** The board after one hint: the first empty cell takes the solution's value; a board
      with no empty cell is left as it is, even where it disagrees with the solution. */
  function Hinted(s: seq<int>, solution: seq<int>): seq<int>
    requires |s| == |solution|
  {
    match FirstEmpty(s, 0)
    case None => s
    case Some(p) => s[p := solution[p]]
  }

  /** giveHint: scans the board row by row for the first 0. If there is one, a copy of
      the board with that cell set from the solution is returned; otherwise the board
      itself is returned, untouched. */
  method GiveHint(board: array<int>, solved: array<int>) returns (next: array<int>)
    requires board.Length == Size && solved.Length == Size
    ensures next[..] == Hinted(board[..], solved[..])
    ensures FirstEmpty(board[..], 0).None? ==> next == board
    ensures FirstEmpty(board[..], 0).Some? ==> fresh(next)
  {
    for r := 0 to 9
      invariant forall q :: 0 <= q < Idx(r, 0) ==> board[q] != 0
    {
      for c := 0 to 9
        invariant forall q :: 0 <= q < Idx(r, c) ==> board[q] != 0
      {
        var p := Idx(r, c);
        if board[p] == 0 {
          assert FirstEmpty(board[..], 0) == Some(p);
          next := CopyBoard(board);
          next[p] := solved[p];
          return;
        }
      }
    }
    next := board;
  }

  /** solvePuzzle: the board becomes a copy of the solution, whatever it held before. */
  method SolvePuzzle(solved: array<int>) returns (next: array<int>)
    ensures fresh(next) && next[..] == solved[..]
  {
    next := CopyBoard(solved);
  }

  /** A hint on a board with an empty cell empties one cell fewer, provided the
      solution's value there is a digit. */
  lemma HintFillsOneCell(s: seq<int>, solution: seq<int>)
    requires |s| == Size && |solution| == Size
    requires FirstEmpty(s, 0).Some? && solution[FirstEmpty(s, 0).value] != 0
    ensures |Hinted(s, solution)| == Size
    ensures EmptyCells(Hinted(s, solution)) == EmptyCells(s) - {FirstEmpty(s, 0).value}
    ensures |EmptyCells(Hinted(s, solution))| == |EmptyCells(s)| - 1
  {
    var p := FirstEmpty(s, 0).value;
    assert EmptyCells(Hinted(s, solution)) == EmptyCells(s) - {p};
  }

  /** The board after n hints. */
  function HintedTimes(s: seq<int>, solution: seq<int>, n: nat): seq<int>
    requires |s| == |solution|
    decreases n
  {
    if n == 0 then s else HintedTimes(Hinted(s, solution), solution, n - 1)
  }

  /** A board that agrees with a full solution wherever it is filled becomes the solution
      after as many hints as it has empty cells. */
  lemma {:induction false} HintsReachSolution(s: seq<int>, solution: seq<int>, n: nat)
    requires |s| == Size && |solution| == Size
    requires forall q :: 0 <= q < Size ==> solution[q] != 0
    requires SubAssignment(s, solution) && n == |EmptyCells(s)|
    decreases n
    ensures HintedTimes(s, solution, n) == solution
  {
    if n == 0 {
      assert EmptyCells(s) == {};
      forall q | 0 <= q < Size ensures s[q] == solution[q] {
        assert q !in EmptyCells(s);
      }
    } else {
      var p :| p in EmptyCells(s);
      assert FirstEmpty(s, 0).Some?;
      HintFillsOneCell(s, solution);
      HintsReachSolution(Hinted(s, solution), solution, n - 1);
    }
  }
}
