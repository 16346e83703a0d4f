/** generatePuzzleFromSolved: copy the full board and empty randomly chosen filled cells
    until the difficulty's removal count is reached. The random (row, column) draws are a
    caller-supplied finite stream `samples`; a draw that lands on an empty cell is
    discarded, as in the source. */
module Carver {
  import opened Grid

  /** The removal target: "easy" 35, "medium" 45, anything else 55. */
  function RemovalCount(level: string): (n: nat)
    ensures level == "easy" ==> n == 35
    ensures level == "medium" ==> n == 45
    ensures level != "easy" && level != "medium" ==> n == 55
  {
    if level == "easy" then 35 else if level == "medium" then 45 else 55
  }

  predicate ValidSamples(samples: seq<(int, int)>)
  {
    forall k :: 0 <= k < |samples| ==> InBoard(samples[k].0, samples[k].1)
  }

  /** The distinct cells among the first n draws that are filled in `full`: the cells
      those draws can empty. */
  ghost function Hits(full: seq<int>, samples: seq<(int, int)>, n: nat): set<int>
    requires |full| == Size && ValidSamples(samples) && n <= |samples|
  {
    set k | 0 <= k < n && At(full, samples[k].0, samples[k].1) != 0 ::
      Idx(samples[k].0, samples[k].1)
  }

  /** What the carving loop keeps after its first k draws: exactly the hit cells are
      emptied, every other cell is as in `full`. */
  ghost predicate CarveState(full: seq<int>, g: seq<int>, removed: set<int>,
                             samples: seq<(int, int)>, k: nat)
  {
    |full| == Size && |g| == Size && ValidSamples(samples) && k <= |samples| &&
    removed == Hits(full, samples, k) &&
    (forall q :: 0 <= q < Size ==> g[q] == if q in removed then 0 else full[q])
  }

  /** One draw of the carving loop: a draw on a filled cell empties it and adds one new
      cell to the removed set; a draw on an empty cell changes nothing. */
  lemma {:induction false} CarveStep(full: seq<int>, g: seq<int>, removed: set<int>,
                                     samples: seq<(int, int)>, k: nat)
    requires CarveState(full, g, removed, samples, k) && k < |samples|
    ensures InBoard(samples[k].0, samples[k].1)
    ensures var i := Idx(samples[k].0, samples[k].1);
      0 <= i < Size &&
      (g[i] != 0 ==> i !in removed && CarveState(full, g[i := 0], removed + {i}, samples, k + 1)) &&
      (g[i] == 0 ==> CarveState(full, g, removed, samples, k + 1))
  {
    var (r, c) := samples[k];
    var i := Idx(r, c);
    IdxInBoard(r, c);
    var next := Hits(full, samples, k + 1);
    if At(full, r, c) != 0 {
      assert next == removed + {i};
    } else {
      assert next == removed;
    }
    if g[i] != 0 {
      var g' := g[i := 0];
      forall q | 0 <= q < Size ensures g'[q] == if q in removed + {i} then 0 else full[q] {
      }
    }
  }

  /** When the loop stops, the emptied cells are exactly the draws' hits so far, which are
      among all the stream's hits and are all of them once the stream is used up. */
  lemma CarveFinish(full: seq<int>, g: seq<int>, removed: set<int>,
                    samples: seq<(int, int)>, k: nat)
    requires CarveState(full, g, removed, samples, k)
    ensures Zeroed(full, g) == removed
    ensures removed <= Hits(full, samples, |samples|)
    ensures k == |samples| ==> removed == Hits(full, samples, |samples|)
  {
    assert Zeroed(full, g) == removed;
  }

  /** The carved puzzle agrees with `full` wherever it is filled, and every cell it empties
      is a cell the draws hit. `done` says the removal target was reached, which happens
      exactly when the stream hits enough distinct filled cells; then exactly
      RemovalCount(level) cells were emptied. Otherwise the stream ran out and precisely its
      hits were emptied. `full` is not modified. */
  method GeneratePuzzleFromSolved(full: array<int>, level: string, samples: seq<(int, int)>)
    returns (grid: array<int>, done: bool)
    requires full.Length == Size && ValidSamples(samples)
    ensures fresh(grid) && grid.Length == Size
    ensures SubAssignment(grid[..], full[..])
    ensures Zeroed(full[..], grid[..]) <= Hits(full[..], samples, |samples|)
    ensures done <==> |Hits(full[..], samples, |samples|)| >= RemovalCount(level)
    ensures done ==> |Zeroed(full[..], grid[..])| == RemovalCount(level)
    ensures !done ==> Zeroed(full[..], grid[..]) == Hits(full[..], samples, |samples|)
  {
    grid := CopyBoard(full);
    var cellsToRemove := RemovalCount(level);
    var count := 0;
    var k := 0;
    ghost var removed: set<int> := {};
    assert Hits(full[..], samples, 0) == {};
    while count < cellsToRemove && k < |samples|
      invariant CarveState(full[..], grid[..], removed, samples, k)
      invariant count == |removed| && count <= cellsToRemove
      decreases |samples| - k
    {
      var (r, c) := samples[k];
      CarveStep(full[..], grid[..], removed, samples, k);
      if grid[Idx(r, c)] != 0 {
        grid[Idx(r, c)] := 0;
        count := count + 1;
        removed := removed + {Idx(r, c)};
      }
      k := k + 1;
    }
    done := count >= cellsToRemove;
    CarveFinish(full[..], grid[..], removed, samples, k);
    SubsetCard(removed, Hits(full[..], samples, |samples|));
  }

  /** The filled cells of a board. */
  ghost function FilledCells(s: seq<int>): set<int>
    requires |s| == Size
  {
    set q | 0 <= q < Size && s[q] != 0
  }

  /** Carving n cells out of a completely filled board leaves 81 - n clues: 46 for
      "easy", 36 for "medium" and 26 otherwise. */
  lemma CarvedClueCount(full: seq<int>, p: seq<int>, n: nat)
    requires |full| == Size && |p| == Size && forall q :: 0 <= q < Size ==> full[q] != 0
    requires SubAssignment(p, full) && |Zeroed(full, p)| == n
    ensures |FilledCells(p)| == Size - n
  {
    var cells := seq(Size, q => q);
    var all := set x | x in cells;
    DistinctCard(cells);
    assert all == FilledCells(p) + Zeroed(full, p) by {
      forall q | q in all ensures q in FilledCells(p) + Zeroed(full, p) {
        assert cells[q] == q;
      }
      forall q | q in FilledCells(p) + Zeroed(full, p) ensures q in all {
        assert cells[q] == q;
      }
    }
    assert FilledCells(p) * Zeroed(full, p) == {};
  }
}
