/** Values and predicates shared by the Sudoku engine.
    A board is 81 integers in row-major order: cell (r, c) lives at index r * 9 + c.
    0 means "empty"; the digits are 1..9. */
module Grid {

  datatype Option<T> = None | Some(value: T)

  const Size: int := 81

  /** Row-major index of cell (r, c). Idx(r, 9) == Idx(r + 1, 0), which is how the
      generator's cursor moves past the end of a row. */
  function Idx(r: int, c: int): int { r * 9 + c }

  predicate InBoard(r: int, c: int) { 0 <= r < 9 && 0 <= c < 9 }

  /** The value of cell (r, c) of a board snapshot. */
  function At(s: seq<int>, r: int, c: int): int
    requires |s| == Size && InBoard(r, c)
  {
    s[Idx(r, c)]
  }

  /** Two distinct-or-equal cells share a row, a column or a 3x3 box. */
  predicate SameUnit(r1: int, c1: int, r2: int, c2: int)
  {
    r1 == r2 || c1 == c2 || (r1 / 3 == r2 / 3 && c1 / 3 == c2 / 3)
  }

  /** No digit occurs twice in any row, column or box (empty cells are ignored). */
  ghost predicate NoConflict(s: seq<int>)
    requires |s| == Size
  {
    forall r1, c1, r2, c2 ::
      InBoard(r1, c1) && InBoard(r2, c2) && (r1 != r2 || c1 != c2) &&
      SameUnit(r1, c1, r2, c2) && At(s, r1, c1) != 0 ==>
        At(s, r1, c1) != At(s, r2, c2)
  }

  /** A complete, valid Sudoku: every cell holds a digit and there is no conflict. */
  ghost predicate Solved(s: seq<int>)
  {
    |s| == Size && (forall q :: 0 <= q < Size ==> 1 <= s[q] <= 9) && NoConflict(s)
  }

  /** Placing `num` at (r, c) is legal: it is absent from row r, from column c, and
      from the box whose top-left corner is (r - r % 3, c - c % 3). */
  ghost predicate Safe(s: seq<int>, r: int, c: int, num: int)
    requires |s| == Size && InBoard(r, c)
  {
    (forall x :: 0 <= x < 9 ==> At(s, r, x) != num) &&
    (forall x :: 0 <= x < 9 ==> At(s, x, c) != num) &&
    BlockFree(s, r - r % 3, c - c % 3, num)
  }

  /** `num` is absent from the 3x3 block whose top-left corner is (r0, c0). */
  ghost predicate BlockFree(s: seq<int>, r0: int, c0: int, num: int)
    requires |s| == Size && InBoard(r0, c0) && r0 <= 6 && c0 <= 6
  {
    forall i, j :: 0 <= i < 3 && 0 <= j < 3 ==> BlockAt(s, r0, c0, i, j) != num
  }

  /** Cell (i, j) of the 3x3 block whose top-left corner is (r0, c0). */
  function BlockAt(s: seq<int>, r0: int, c0: int, i: int, j: int): int
    requires |s| == Size && InBoard(r0 + i, c0 + j)
  {
    At(s, r0 + i, c0 + j)
  }

  /** A puzzle is a sub-assignment of a solution: each of its cells is empty or agrees. */
  ghost predicate SubAssignment(p: seq<int>, s: seq<int>)
  {
    |p| == |s| && forall q :: 0 <= q < |p| ==> p[q] == 0 || p[q] == s[q]
  }

  /** The empty cells of a board. */
  ghost function EmptyCells(s: seq<int>): set<int>
    requires |s| == Size
  {
    set q | 0 <= q < Size && s[q] == 0
  }

  /** The cells that were filled in `full` and are empty in `p`. */
  ghost function Zeroed(full: seq<int>, p: seq<int>): set<int>
    requires |full| == Size && |p| == Size
  {
    set q | 0 <= q < Size && full[q] != 0 && p[q] == 0
  }

  /** A legal candidate order: the digits 1..9, each exactly once. */
  ghost predicate IsDigitOrder(ns: seq<int>)
  {
    |ns| == 9 && (forall k :: 0 <= k < 9 ==> 1 <= ns[k] <= 9) &&
    (forall k, l :: 0 <= k < l < 9 ==> ns[k] != ns[l])
  }

  lemma IdxInBoard(r: int, c: int)
    requires InBoard(r, c)
    ensures 0 <= Idx(r, c) < Size
  {
  }

  /** Distinct cells have distinct indices, and every index names some cell. */
  lemma IdxInjective(r1: int, c1: int, r2: int, c2: int)
    requires InBoard(r1, c1) && InBoard(r2, c2)
    ensures Idx(r1, c1) == Idx(r2, c2) <==> r1 == r2 && c1 == c2
  {
  }

  /** The empty board has no conflict. */
  lemma EmptyBoardNoConflict(s: seq<int>)
    requires |s| == Size && forall q :: 0 <= q < Size ==> s[q] == 0
    ensures NoConflict(s)
  {
  }

  /** A cell in the same box as row r lies at offset a % 3 from the box's first row. */
  lemma BoxOffset(r: int, a: int)
    requires 0 <= r < 9 && 0 <= a < 9 && a / 3 == r / 3
    ensures 0 <= a - (r - r % 3) < 3
  {
  }

  /** Writing a Safe digit into an empty cell of a conflict-free board keeps it conflict-free.
      This is why every write of the backtracking search after an isSafe check keeps the
      board valid. */
  lemma {:induction false} PlaceSafe(s: seq<int>, r: int, c: int, num: int)
    requires |s| == Size && InBoard(r, c) && NoConflict(s)
    requires At(s, r, c) == 0 && Safe(s, r, c, num)
    ensures NoConflict(s[Idx(r, c) := num])
  {
    var t := s[Idx(r, c) := num];
    forall r1, c1, r2, c2 |
      InBoard(r1, c1) && InBoard(r2, c2) && (r1 != r2 || c1 != c2) &&
      SameUnit(r1, c1, r2, c2) && At(t, r1, c1) != 0
      ensures At(t, r1, c1) != At(t, r2, c2)
    {
      IdxInjective(r1, c1, r, c);
      IdxInjective(r2, c2, r, c);
      if r1 == r && c1 == c {
        OtherCellNotNum(s, r, c, num, r2, c2);
      } else if r2 == r && c2 == c {
        OtherCellNotNum(s, r, c, num, r1, c1);
      } else {
        assert At(t, r1, c1) == At(s, r1, c1) && At(t, r2, c2) == At(s, r2, c2);
      }
    }
  }

  /** Conversely, a digit that is not Safe at an empty cell creates a conflict there, so
      Safe rejects exactly the placements that break validity. */
  lemma UnsafePlacementConflicts(s: seq<int>, r: int, c: int, num: int)
    requires |s| == Size && InBoard(r, c) && At(s, r, c) == 0 && num != 0
    requires !Safe(s, r, c, num)
    ensures !NoConflict(s[Idx(r, c) := num])
  {
    if !(forall x :: 0 <= x < 9 ==> At(s, r, x) != num) {
      var x :| 0 <= x < 9 && At(s, r, x) == num;
      WriteConflicts(s, r, c, num, r, x);
    } else if !(forall x :: 0 <= x < 9 ==> At(s, x, c) != num) {
      var x :| 0 <= x < 9 && At(s, x, c) == num;
      WriteConflicts(s, r, c, num, x, c);
    } else {
      var r0, c0 := r - r % 3, c - c % 3;
      assert !BlockFree(s, r0, c0, num);
      var i, j :| 0 <= i < 3 && 0 <= j < 3 && BlockAt(s, r0, c0, i, j) == num;
      assert (r0 + i) / 3 == r / 3 && (c0 + j) / 3 == c / 3;
      WriteConflicts(s, r, c, num, r0 + i, c0 + j);
    }
  }

  /** Writing num at the empty cell (r, c) clashes with a cell (a, b) of the same unit
      that already holds num. */
  lemma WriteConflicts(s: seq<int>, r: int, c: int, num: int, a: int, b: int)
    requires |s| == Size && InBoard(r, c) && InBoard(a, b) && At(s, r, c) == 0 && num != 0
    requires SameUnit(r, c, a, b) && At(s, a, b) == num
    ensures !NoConflict(s[Idx(r, c) := num])
  {
    var t := s[Idx(r, c) := num];
    IdxInjective(a, b, r, c);
    assert At(t, r, c) == num && At(t, a, b) == num;
    Conflict(t, r, c, a, b);
  }

  /** Two different cells of one unit holding the same digit are a conflict. */
  lemma Conflict(t: seq<int>, r1: int, c1: int, r2: int, c2: int)
    requires |t| == Size && InBoard(r1, c1) && InBoard(r2, c2) && (r1 != r2 || c1 != c2)
    requires SameUnit(r1, c1, r2, c2) && At(t, r1, c1) != 0 && At(t, r1, c1) == At(t, r2, c2)
    ensures !NoConflict(t)
  {
  }

  /** On a conflict-free board, a digit is Safe at an empty cell exactly when writing it
      there keeps the board conflict-free. */
  lemma SafeIffStaysValid(s: seq<int>, r: int, c: int, num: int)
    requires |s| == Size && InBoard(r, c) && NoConflict(s) && At(s, r, c) == 0 && num != 0
    ensures Safe(s, r, c, num) <==> NoConflict(s[Idx(r, c) := num])
  {
    if Safe(s, r, c, num) {
      PlaceSafe(s, r, c, num);
    } else {
      UnsafePlacementConflicts(s, r, c, num);
    }
  }

  /** Every cell sharing a unit with (r, c) other than (r, c) itself avoids a Safe digit. */
  lemma OtherCellNotNum(s: seq<int>, r: int, c: int, num: int, a: int, b: int)
    requires |s| == Size && InBoard(r, c) && InBoard(a, b) && Safe(s, r, c, num)
    requires SameUnit(r, c, a, b)
    ensures At(s, a, b) != num
  {
    if a == r {
      assert At(s, r, b) != num;
    } else if b == c {
      assert At(s, a, c) != num;
    } else {
      BoxOffset(r, a);
      BoxOffset(c, b);
      var i, j := a - (r - r % 3), b - (c - c % 3);
      assert BlockAt(s, r - r % 3, c - c % 3, i, j) != num;
    }
  }

  /** Row r, column c, box (i, j) contain digit d somewhere. */
  ghost predicate RowHas(s: seq<int>, r: int, d: int)
    requires |s| == Size && 0 <= r < 9
  {
    exists c :: 0 <= c < 9 && At(s, r, c) == d
  }

  ghost predicate ColHas(s: seq<int>, c: int, d: int)
    requires |s| == Size && 0 <= c < 9
  {
    exists r :: 0 <= r < 9 && At(s, r, c) == d
  }

  ghost predicate BoxHas(s: seq<int>, i: int, j: int, d: int)
    requires |s| == Size && 0 <= i < 3 && 0 <= j < 3
  {
    exists a, b :: 0 <= a < 3 && 0 <= b < 3 && BlockAt(s, 3 * i, 3 * j, a, b) == d
  }

  /** A sequence without repetitions has as many distinct elements as it is long. */
  lemma {:induction false} DistinctCard(vals: seq<int>)
    requires forall k, l :: 0 <= k < l < |vals| ==> vals[k] != vals[l]
    ensures |set x | x in vals| == |vals|
  {
    if vals != [] {
      var n := |vals| - 1;
      var init := vals[..n];
      DistinctCard(init);
      assert (set x | x in vals) == (set x | x in init) + {vals[n]};
      assert vals[n] !in init;
    } else {
      assert (set x | x in vals) == {};
    }
  }

  const Digits: seq<int> := [1, 2, 3, 4, 5, 6, 7, 8, 9]

  /** The digits 1..9 form a set of nine elements. */
  lemma DigitSet()
    ensures |set x | x in Digits| == 9
    ensures forall d :: 1 <= d <= 9 <==> d in Digits
  {
    forall k, l | 0 <= k < l < 9 ensures Digits[k] != Digits[l] {
      assert Digits[k] == k + 1 && Digits[l] == l + 1;
    }
    DistinctCard(Digits);
    forall d | 1 <= d <= 9 ensures d in Digits {
      assert Digits[d - 1] == d;
    }
  }

  /** Pigeonhole: nine pairwise different digits are all nine digits. */
  lemma NineDistinctDigits(vals: seq<int>)
    requires |vals| == 9 && forall k :: 0 <= k < 9 ==> 1 <= vals[k] <= 9
    requires forall k, l :: 0 <= k < l < 9 ==> vals[k] != vals[l]
    ensures forall d :: 1 <= d <= 9 ==> d in vals
  {
    var present := set x | x in vals;
    var digits := set x | x in Digits;
    DistinctCard(vals);
    DigitSet();
    assert present <= digits;
    assert digits == present + (digits - present);
    assert |digits - present| == 0;
    forall d | 1 <= d <= 9 ensures d in vals {
      assert d in digits && d !in digits - present;
    }
  }

  lemma SubsetCard(a: set<int>, b: set<int>)
    requires a <= b
    ensures |a| <= |b|
  {
    assert b == a + (b - a);
  }

  /** A solved board holds every digit exactly once in each row, column and box: at most
      once by NoConflict, and at least once by counting. */
  lemma SolvedUnitsHoldEveryDigit(s: seq<int>)
    requires Solved(s)
    ensures forall r, d :: 0 <= r < 9 && 1 <= d <= 9 ==> RowHas(s, r, d)
    ensures forall c, d :: 0 <= c < 9 && 1 <= d <= 9 ==> ColHas(s, c, d)
    ensures forall i, j, d :: 0 <= i < 3 && 0 <= j < 3 && 1 <= d <= 9 ==> BoxHas(s, i, j, d)
  {
    forall r, d | 0 <= r < 9 && 1 <= d <= 9 ensures RowHas(s, r, d) {
      SolvedRowHas(s, r, d);
    }
    forall c, d | 0 <= c < 9 && 1 <= d <= 9 ensures ColHas(s, c, d) {
      SolvedColHas(s, c, d);
    }
    forall i, j, d | 0 <= i < 3 && 0 <= j < 3 && 1 <= d <= 9 ensures BoxHas(s, i, j, d) {
      SolvedBoxHas(s, i, j, d);
    }
  }

  lemma SolvedRowHas(s: seq<int>, r: int, d: int)
    requires Solved(s) && 0 <= r < 9 && 1 <= d <= 9
    ensures RowHas(s, r, d)
  {
    var vals := seq(9, c requires 0 <= c < 9 => At(s, r, c));
    forall k, l | 0 <= k < l < 9 ensures vals[k] != vals[l] {
      CellsDiffer(s, r, k, r, l);
    }
    NineDistinctDigits(vals);
    assert d in vals;
    var c :| 0 <= c < 9 && vals[c] == d;
  }

  lemma SolvedColHas(s: seq<int>, c: int, d: int)
    requires Solved(s) && 0 <= c < 9 && 1 <= d <= 9
    ensures ColHas(s, c, d)
  {
    var vals := seq(9, r requires 0 <= r < 9 => At(s, r, c));
    forall k, l | 0 <= k < l < 9 ensures vals[k] != vals[l] {
      CellsDiffer(s, k, c, l, c);
    }
    NineDistinctDigits(vals);
    assert d in vals;
    var r :| 0 <= r < 9 && vals[r] == d;
  }

  lemma SolvedBoxHas(s: seq<int>, i: int, j: int, d: int)
    requires Solved(s) && 0 <= i < 3 && 0 <= j < 3 && 1 <= d <= 9
    ensures BoxHas(s, i, j, d)
  {
    var vals := seq(9, k requires 0 <= k < 9 => BlockAt(s, 3 * i, 3 * j, k / 3, k % 3));
    forall k, l | 0 <= k < l < 9 ensures vals[k] != vals[l] {
      assert k / 3 != l / 3 || k % 3 != l % 3;
      BlockCellsDiffer(s, i, j, k / 3, k % 3, l / 3, l % 3);
    }
    NineDistinctDigits(vals);
    assert d in vals;
    var k :| 0 <= k < 9 && vals[k] == d;
    assert BlockAt(s, 3 * i, 3 * j, k / 3, k % 3) == d;
  }

  /** Two different cells of one box of a solved board hold different digits. */
  lemma BlockCellsDiffer(s: seq<int>, i: int, j: int, a1: int, b1: int, a2: int, b2: int)
    requires Solved(s) && 0 <= i < 3 && 0 <= j < 3
    requires 0 <= a1 < 3 && 0 <= b1 < 3 && 0 <= a2 < 3 && 0 <= b2 < 3 && (a1 != a2 || b1 != b2)
    ensures BlockAt(s, 3 * i, 3 * j, a1, b1) != BlockAt(s, 3 * i, 3 * j, a2, b2)
  {
    var r1, c1, r2, c2 := 3 * i + a1, 3 * j + b1, 3 * i + a2, 3 * j + b2;
    assert r1 / 3 == i && r2 / 3 == i && c1 / 3 == j && c2 / 3 == j;
    CellsDiffer(s, r1, c1, r2, c2);
  }

  /** Two different cells sharing a unit of a solved board hold different digits. */
  lemma CellsDiffer(s: seq<int>, r1: int, c1: int, r2: int, c2: int)
    requires Solved(s) && InBoard(r1, c1) && InBoard(r2, c2) && (r1 != r2 || c1 != c2)
    requires SameUnit(r1, c1, r2, c2)
    ensures At(s, r1, c1) != At(s, r2, c2)
  {
    IdxInBoard(r1, c1);
    assert At(s, r1, c1) != 0;
  }

  /** Row-by-row copy of a board (`board.map((row) => [...row])`). */
  method CopyBoard(g: array<int>) returns (h: array<int>)
    ensures fresh(h) && h.Length == g.Length && h[..] == g[..]
  {
    h := new int[g.Length];
    for i := 0 to g.Length
      invariant forall k :: 0 <= k < i ==> h[k] == g[k]
    {
      h[i] := g[i];
    }
  }
}
