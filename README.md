# Sudoku engine of sudoku-react, modelled in Dafny

This project models the puzzle engine inside the React component of sudoku-react
(`sudoku-react/src/App.jsx`). The engine has four parts:

- **isSafe**: may digit `num` go at `(r, c)`? Only if it is not already in row `r`, in column `c`,
  or in the 3×3 box whose top-left corner is `(r - r % 3, c - c % 3)`.
- **solve / generateSolvedBoard**: a backtracking search. It fills an all-zero board in row-major
  order. At each empty cell it tries the digits 1..9 in shuffled order, writes a digit only when
  isSafe approves it, recurses, and resets the cell to 0 when the recursion fails.
- **generatePuzzleFromSolved**: copies the full board, then empties random filled cells until
  35 ("easy"), 45 ("medium") or 55 (any other level) cells have been removed.
- **giveHint / solvePuzzle**: giveHint fills the first empty cell, in row-major order, from the
  solution. solvePuzzle replaces the board with a copy of the solution.

Representation:

- A board is an `array<int>` of 81 cells. Cell `(r, c)` is at index `r * 9 + c` (`Grid.Idx`).
  The source uses nine row arrays. It only ever copies a board row by row and never shares a
  row between two boards, so the flat array loses nothing.
- The specifications are predicates on the snapshot `g[..]`: `NoConflict`, `Solved`, `Safe`,
  `SubAssignment`, `EmptyCells` and `Zeroed` in `grid.dfy`.
- Randomness is passed in by the caller:
  - The shuffle is a stream `shuffle: nat -> seq<int>`. The k-th time the search reaches an
    empty cell, it tries the digits in the order `shuffle(k)`. Each `shuffle(k)` must be an
    ordering of 1..9, which is what shuffling `[1..9]` gives.
  - The carver's `Math.random` row/column pairs are a finite stream `samples` of cells on the
    board.
  - Every property holds for every shuffle stream and every sample stream.

Files: `grid.dfy` (board predicates and their lemmas, board copy), `generator.dfy` (isSafe,
solve, generateSolvedBoard), `carver.dfy` (generatePuzzleFromSolved), `hints.dfy` (giveHint,
solvePuzzle).

## Model

| member | source | states |
|---|---|---|
| `Generator.IsSafe` | sudoku-react/src/App.jsx:36-47 | The answer is true exactly when `num` occurs in neither row `r`, column `c`, nor the box starting at `(r - r % 3, c - c % 3)`. |
| `Grid.SafeIffStaysValid` | sudoku-react/src/App.jsx:36-47 | On a board without conflicts, a digit is Safe at an empty cell if and only if writing it there leaves the board without conflicts. |
| `Grid.PlaceSafe` | sudoku-react/src/App.jsx:56-57 | Writing a Safe digit into an empty cell of a conflict-free board keeps every row, column and box free of duplicates. |
| `Grid.UnsafePlacementConflicts` | sudoku-react/src/App.jsx:37-44 | A non-zero digit rejected by isSafe would create a duplicate in the row, the column or the box. |
| `Grid.EmptyBoardNoConflict` | sudoku-react/src/App.jsx:34 | The all-zero starting board has no conflict. |
| `Generator.Solve` | sudoku-react/src/App.jsx:49-63 | Cells before the cursor and cells that were filled on entry never change. Written cells hold digits 1..9. A false return restores the board exactly. A true return leaves every cell from the cursor onwards filled. A conflict-free board stays conflict-free. |
| `Generator.GenerateSolvedBoard` | sudoku-react/src/App.jsx:33-67 | Returns a fresh board. If the search succeeded, the board is solved: all 81 cells hold digits and no row, column or box repeats one. If it failed, the board is all zeros. |
| `Grid.SolvedUnitsHoldEveryDigit` | sudoku-react/src/App.jsx:49-51 | On a solved board, every row, column and box contains each digit 1..9. NoConflict adds that each appears only once. |
| `Grid.CopyBoard` | sudoku-react/src/App.jsx:71 | The copy is a fresh array with the same cells. |
| `Carver.RemovalCount` | sudoku-react/src/App.jsx:72 | "easy" gives 35, "medium" gives 45, and every other level gives 55. |
| `Carver.GeneratePuzzleFromSolved` | sudoku-react/src/App.jsx:70-84 | `fullBoard` is untouched. The puzzle is fresh and agrees with `fullBoard` in every cell it fills. Every emptied cell is a filled cell that some draw hit. The target is reached exactly when the sample stream hits at least that many distinct filled cells. Then exactly the target number of cells were emptied. Otherwise exactly the hit cells were emptied. |
| `Carver.CarvedClueCount` | sudoku-react/src/App.jsx:75-82 | Emptying n cells of a completely filled board leaves 81 − n clues: 46, 36 or 26. |
| `Hints.FirstEmpty` | sudoku-react/src/App.jsx:105-107 | Returns the first index holding 0 in row-major order, with every earlier cell filled. Returns nothing exactly when no cell is 0. |
| `Hints.GiveHint` | sudoku-react/src/App.jsx:104-115 | With an empty cell, returns a fresh board equal to the old one except that the first empty cell takes the solution's value. Without one, returns the board itself, unchanged. |
| `Hints.HintFillsOneCell` | sudoku-react/src/App.jsx:107-109 | A hint removes exactly the first empty cell from the set of empty cells, so the count drops by one when the solution holds a digit there. |
| `Hints.HintsReachSolution` | sudoku-react/src/App.jsx:104-115 | Take a board that agrees with a full solution wherever it is filled. After as many hints as it has empty cells, it equals the solution. |
| `Hints.SolvePuzzle` | sudoku-react/src/App.jsx:98-99 | The new board is a fresh copy of the solution, whatever the board held before. |

## Left out

- React state hooks, JSX rendering and CSS classes (lines 5-16, 117-169): presentation only.
  The boards are plain arrays passed in and returned.
- The timer (`useEffect`/`setInterval`, lines 18-27, and `setTimerOn` in lines 94 and 100):
  it depends on time and runs asynchronously.
- `getPuzzle` (lines 87-95): it chains generation and carving, stores the three boards in
  React state, and resets and starts the timer (lines 93-94).
- The input filter `/^[1-9]?$/` in `onChange` and the "wrong" marking (lines 149-160): UI
  behaviour.
- The comparator shuffle (line 30) and `Math.random` (lines 76-77): replaced by caller-supplied
  streams. Their probability distributions, including the shuffle's bias, are not modelled.
- GenerateSolvedBoard: proves validity only when the search reports success. It does not prove
  that backtracking from the empty board always succeeds, which is a fact of Sudoku theory.
  The source ignores `solve`'s result; the model returns it.
- GeneratePuzzleFromSolved: the sample stream is finite, so the loop also stops when the stream
  runs out and reports this as `done == false`. The exact removal count is proved for
  `done == true`. `done` holds exactly when the stream hits enough distinct filled cells. The
  source loops until the target is reached, and never terminates when fewer filled cells exist.
- Non-integer cell values and JavaScript's `===` on mixed types are not modelled: cells are
  integers.
- giveHint installs a patched copy of the board; it does not return a `(row, col, value)`
  patch.
- generatePuzzleFromSolved does not check that its input is a complete grid, so
  GeneratePuzzleFromSolved does not require it either.
