/** The randomized backtracking generator: `isSafe`, `solve` and `generateSolvedBoard`.
    The shuffled candidate orders are a caller-supplied stream: the k-th time the search
    reaches an empty cell it tries the digits in the order `shuffle(k)`. */
module Generator {
  import opened Grid

  /** isSafe: scans row r and column c together, then the 3x3 box whose top-left
      corner is (r - r % 3, c - c % 3), answering false at the first occurrence of num. */
  method IsSafe(g: array<int>, r: int, c: int, num: int) returns (b: bool)
    requires g.Length == Size && InBoard(r, c)
    ensures b <==> Safe(g[..], r, c, num)
  {
    for x := 0 to 9
      invariant forall y :: 0 <= y < x ==> At(g[..], r, y) != num && At(g[..], y, c) != num
    {
      if g[Idx(r, x)] == num || g[Idx(x, c)] == num {
        assert At(g[..], r, x) == num || At(g[..], x, c) == num;
        return false;
      }
    }
    var startRow := r - r % 3;
    var startCol := c - c % 3;
    for i := 0 to 3
      invariant forall i', j' :: 0 <= i' < i && 0 <= j' < 3 ==>
        BlockAt(g[..], startRow, startCol, i', j') != num
    {
      for j := 0 to 3
        invariant forall i', j' :: (0 <= i' < i && 0 <= j' < 3) || (i' == i && 0 <= j' < j) ==>
          BlockAt(g[..], startRow, startCol, i', j') != num
      {
        if g[Idx(startRow + i, startCol + j)] == num {
          assert BlockAt(g[..], startRow, startCol, i, j) == num;
          return false;
        }
      }
    }
    return true;
  }

  /** solve(g, r, c): fills the cells from (r, c) onwards in row-major order, leaving
      non-zero cells alone. `draws` is how many candidate orders the search has used so
      far; `used` is that count on return. */
  method Solve(g: array<int>, r: int, c: int, shuffle: nat -> seq<int>, draws: nat)
    returns (ok: bool, used: nat)
    requires g.Length == Size && 0 <= r <= 9 && 0 <= c <= 9
    requires forall k :: IsDigitOrder(shuffle(k))
    modifies g
    decreases 9 - r, 9 - c
    // cells before the cursor, and cells that were already filled, are never changed
    ensures forall q :: 0 <= q < Size && (q < Idx(r, c) || old(g[q]) != 0) ==> g[q] == old(g[q])
    // every cell the search wrote holds a digit
    ensures forall q :: 0 <= q < Size && old(g[q]) == 0 ==> g[q] == 0 || 1 <= g[q] <= 9
    // on failure every tentative placement has been undone
    ensures !ok ==> g[..] == old(g[..])
    // on success every cell from the cursor onwards is filled
    ensures ok ==> forall q :: Idx(r, c) <= q < Size ==> g[q] != 0
    // a conflict-free board stays conflict-free
    ensures NoConflict(old(g[..])) ==> NoConflict(g[..])
    ensures draws <= used
  {
    if r == 9 {
      return true, draws;
    }
    if c == 9 {
      ok, used := Solve(g, r + 1, 0, shuffle, draws);
      return;
    }
    IdxInBoard(r, c);
    var p := Idx(r, c);
    if g[p] != 0 {
      ok, used := Solve(g, r, c + 1, shuffle, draws);
      return;
    }
    var numbers := shuffle(draws);
    used := draws + 1;
    for i := 0 to |numbers|
      invariant g[..] == old(g[..])
      invariant draws < used
    {
      var num := numbers[i];
      assert 1 <= num <= 9;
      var safe := IsSafe(g, r, c, num);
      if safe {
        ghost var before := g[..];
        g[p] := num;
        assert g[..] == before[p := num];
        if NoConflict(before) {
          PlaceSafe(before, r, c, num);
        }
        ok, used := Solve(g, r, c + 1, shuffle, used);
        if ok {
          return;
        }
        g[p] := 0;
        assert g[..] == before;
      }
    }
    return false, used;
  }

  /** generateSolvedBoard: an all-zero board filled by solve from (0, 0). The source
      ignores solve's answer; it is returned here so that the validity of the board can
      be stated for a successful search. */
  method GenerateSolvedBoard(shuffle: nat -> seq<int>) returns (grid: array<int>, ok: bool)
    requires forall k :: IsDigitOrder(shuffle(k))
    ensures fresh(grid) && grid.Length == Size
    ensures ok ==> Solved(grid[..])
    ensures !ok ==> forall q :: 0 <= q < Size ==> grid[q] == 0
  {
    grid := new int[Size](_ => 0);
    EmptyBoardNoConflict(grid[..]);
    var used;
    ok, used := Solve(grid, 0, 0, shuffle, 0);
  }
}
