# Sudoku CSP solver — a Dafny model

This project models the solving core of `app.js`. That core is a Sudoku
solver written as a constraint-satisfaction search: `solveSudokuCSP` and its
nested functions. The puzzle is an n-by-n board with n = b·b and b-by-b boxes.

The solver works in this order:
- It checks the board's shape (`isBoardValid`).
- It builds a domain for every empty cell: the set of values that are legal
  there (`initializeDomains`, using `isValid`).
- It searches recursively (`backtrack`). At each step the search does the
  following:
  - picks a cell: the first empty cell, or with MRV an empty cell with the
    smallest domain (`selectCell`);
  - orders that cell's values: domain order, or with LCV by a count of peer
    cells still open to the value (`sortDomainByLCV`);
  - writes each legal value into the board in place;
  - counts an opened state;
  - propagates the value into a copy of the domains (`updateDomains`);
  - recurses, and clears the cell again when the recursion fails.

Modules:
- `Grid` (grid.dfy) is the board as a value. It defines legality, freedom
  from conflicts, solutions, placement and the number of empty cells.
- `Domains` (domains.dfy) defines the domains a solve starts from and the
  effect of forward checking. It also proves that forward checking keeps
  domains exact.
- `Scoring` (scoring.dfy) defines the LCV count with the source's own scan
  structure.
- `Search` (solver.dfy) holds the imperative part:
  - The class `Search.Solver` is the closure of one `solveSudokuCSP` call.
    Its board and box sides and its MRV/LCV switches are constants, and it
    has an `openedStates` counter.
  - The board is an `array2<int>` written in place.
  - Each search frame owns an `array2<set<int>>` of domains.
  - `Search.Solve` is the top-level wiring.

Every method that reads or writes the board or the domain arrays is
specified through the ghost view `Contents`, which gives an array's entries
as rows of values. `SelectCell` states its result on the array entries
directly.

The search is proved three things:
- Safe: it writes only values that pass `isValid`, so a conflict-free board
  stays conflict-free.
- Restoring: a failed search leaves the board exactly as it found it.
- Complete: a failed search from exact domains means the puzzle has no
  solution.

Where the code differs from what its names and comments suggest, this model
follows the code:
- The LCV count is not what least-constraining-value ordering usually
  counts, the *other* empty peers still open to the value. The row, column and
  box passes each see the target cell itself, so the target is counted three
  times. A peer in both the row and the box, or in both the column and the
  box, is counted twice. `Scoring.ScoreByHitSets` states the count as the
  sizes of the row, column and box hit sets added up, so the overlaps count
  more than once. `Scoring.ScoreCountsTargetThrice` and
  `Scoring.SelfCountKeepsOrder` show that the self-count adds the same 3 to
  every candidate, so the resulting order is unaffected.
- The shape check does not look for repeated givens. A board whose givens
  clash is therefore not rejected. If the search completes it, the result is
  reported as solved and still contains the clash; in particular, a full
  board with clashing givens is reported solved. Clashes only stop a value
  from being placed, at `isValid` time during the search.
- The range test reads `board[col][row]`. On a square board the two loops
  still visit every cell, so the check covers every cell.

## Model

| member | source | states |
|---|---|---|
| Search.Solver.constructor | app.js:3-7 | a solver for an n = b·b board with the given MRV and LCV switches, with openedStates at 0 |
| Search.Solver.IsBoardValid | app.js:10-19 | the board passes exactly when every cell holds a value in 0..n |
| Search.Solver.IsValid | app.js:22-41 | true exactly when num occurs nowhere in the row, the column or the b-by-b box of (row, col) (the board is not modified) |
| Search.Solver.CellCandidates | app.js:49-55 | the values 1..n collected for one empty cell are exactly those legal at that cell |
| Search.Solver.InitializeDomains | app.js:44-59 | a fresh n-by-n domain grid where each empty cell holds exactly its legal values in 1..n and each filled cell holds the empty set |
| Search.Solver.SelectCell | app.js:62-89 | None exactly when no cell is empty; otherwise an empty cell. Without MRV it is the first empty cell in row-major order. With MRV its domain is no larger than any empty cell's, and strictly smaller than that of every empty cell before it, so it is the first smallest one |
| Search.Solver.ListDomain | app.js:93 | the values of a domain, each once, in ascending order (the order in which the domain's values were inserted) |
| Search.Solver.CountInLines | app.js:100-103 | the row-and-column pass: equals the line part of the LCV scan count |
| Search.Solver.CountInBox | app.js:106-112 | the box pass: equals the box part of the LCV scan count |
| Search.Solver.CountConstraints | app.js:96-114 | the count stored for num is the full LCV scan count of the row, column and box passes |
| Search.Solver.SortByConstraints | app.js:117 | a permutation of the values, ordered by constraint count and, among equal counts, by the original ascending order, which is what a stable sort gives |
| Search.Solver.SortDomainByLCV | app.js:92-118 | a permutation of the cell's domain. Without LCV it is in the domain's own ascending order. With LCV it is ordered by the LCV count, ties in ascending value order |
| Search.Solver.UpdateDomains | app.js:120-134 | the domains become the forward-checked grid: the placed cell's domain is empty, num is gone from every cell of its row, column and box, and nothing else changes |
| Search.Solver.CopyDomains | app.js:151 | a fresh array holding the same domains |
| Search.Solver.ChildDomains | app.js:151-152 | the child frame's domains are a fresh array holding the caller's domains with num propagated from (row, col). The caller's array is untouched |
| Search.Solver.SetCell | app.js:147 | the board afterwards is the old board with v written at (row, col) |
| Search.Solver.Backtrack | app.js:137-163 | on success: the board is full, keeps every given, is conflict-free if it was on entry, and at least one opened state was counted per empty cell. On failure: the board is exactly as on entry, and with exact domains no solution exists. A board with no empty cell succeeds |
| Search.Solver.TryCandidates | app.js:145-162 | the loop over the ordered candidates, with the same guarantees as the search. With exact domains, failure after the last candidate means no solution, because the candidates covered every solution's value for the cell |
| Search.Solver.TryValue | app.js:146-158 | one branch: place num, count one opened state, propagate and recurse. On failure the cell is cleared again and, when the domains were exact, no solution holds num at that cell |
| Search.Solve | app.js:166-183 | Invalid exactly when some cell is outside 0..n. A non-solved outcome leaves the board unchanged. Solved gives a full board that keeps the givens, and a solution when the givens are conflict-free. NoSolution means no solution exists. A well-formed full board is Solved |
| Search.BranchStep | app.js:146-154 | placing a legal value in an empty cell and propagating it: the board stays in range with one empty cell fewer, domains stay within 1..n, exactness and conflict-freeness carry over, and keeping the new givens keeps the old ones |
| Search.CoversAtStart | app.js:143-145 | with exact domains, the candidate list contains every solution's value at the chosen cell |
| Search.CoversAfterFailure | app.js:145-159 | a candidate that is illegal, or whose branch has no solution, can be dropped without missing any solution |
| Search.InsertStep | app.js:117 | one insertion of the stable sort: the list then holds one more value of the input, stays ordered by (count, value) and stays below the next input value |
| Search.InsertKeepsOrder | app.js:117 | inserting the next, largest value after all values with no greater count keeps the list ordered by (count, value) |
| Domains.ExactWithin | app.js:44-59 | exact domains hold only values in 1..n |
| Domains.PropagateOnlyRemoves | app.js:120-134 | forward checking only removes values: domains stay within 1..n, every new domain is a subset of the old one, and a value other than num is lost only at the placed cell |
| Domains.LegalAfterPlace | app.js:22-41 | after num is placed at the empty cell (row, col), a nonzero value is legal at any cell exactly when it was legal there before and is not num at a peer of (row, col) |
| Domains.PropagateKeepsExact | app.js:120-134 | propagating a placement into exact domains gives exactly the domains that would be built from scratch for the new board |
| Grid.PlaceKeepsNoConflicts | app.js:146-147 | placing a legal value keeps a conflict-free board conflict-free |
| Grid.SolutionValueIsLegal | app.js:22-41 | the value a solution holds in an empty cell is legal there, so it is among the values tried |
| Grid.PlaceInEmpty | app.js:147 | writing 1..n into an empty cell keeps the board in range and keeps its givens |
| Grid.PlaceUndo | app.js:147-158 | clearing the cell again restores the board exactly |
| Grid.EmptyCountPlace | app.js:147 | filling an empty cell reduces the number of empty cells by exactly one, which is the search's termination measure |
| Grid.EmptyCountNone | app.js:138-140 | a board with no empty cell has an empty count of zero |
| Scoring.ScoreCountsTargetThrice | app.js:96-114 | the LCV count equals the count with the target cell's own domain emptied, plus 3 when the target cell is empty and open to the value |
| Scoring.ScoreByHitSets | app.js:96-114 | the LCV count is the number of empty cells still open to the value in the row, plus the number in the column, plus the number in the box, without de-duplication: a cell in two of the sets is counted twice, and the target cell three times |
| Scoring.SelfCountKeepsOrder | app.js:96-117 | for two candidates of the chosen cell, the differences between their LCV counts are the same with and without the self-count, so the sort order does not depend on it |

## Left out

- Console output, the ANSI colour strings and `console.table` at app.js:170-182 are left out. These are I/O. `Search.Solve` returns an `Outcome` instead.
- Timing and the sample boards at module level (app.js:187-222) are left out. They are I/O and data, not logic.
- `isNaN` and dynamic typing (app.js:13) are left out. Cells are `int`, so the not-a-number test can never fail, and only the range test is modelled.
- `Math.sqrt` (app.js:5) is replaced by a box side b with n = b·b, which callers supply. b ≥ 1: the empty 0-by-0 board is not modelled.
- The `Infinity` sentinel for the smallest size (app.js:64) becomes "no cell chosen yet" (`None`).
- The internals of `Array.prototype.sort` are not modelled. The model sorts by stable insertion, which gives the same result as any stable sort on the same input.
- Ragged or non-square boards are not modelled. The board is an n-by-n array.
- Search.Solver.Backtrack: proves only a lower bound on `openedStates` (at least one per empty cell on success, and never decreasing). It does not prove the exact number of placements the search makes.
- Search.Solver.TryCandidates: bounds `openedStates` from below like `Backtrack` (never decreasing, and at least one per empty cell on success), but does not state the exact count.
- Search.Solver.TryValue: states that `openedStates` grows by at least one (the placement it counts), and by at least one per empty cell on success, but not the exact count.
- Search.Solve: the count an outcome reports is at least the number of empty cells when Solved. For NoSolution it is not constrained at all. The exact number of placements is not stated.
- Search.Solve: a Solved outcome is proved to be a solution only when the givens are conflict-free, because the shape check does not reject repeated givens (see above).
- The loop body of `backtrack` is split into `TryCandidates` (the loop over candidates) and `TryValue` (one branch). The domain copy and propagation are split into `ChildDomains`, and the board write into `SetCell`. These splits follow the source's statement order. The ghost parameters `g` and `d` of these methods name the board and the domains on entry.
- Determinism, and the fact that the four heuristic settings agree on solvability, are not stated as lemmas. The first follows from the model being deterministic. For the second, every setting solves a solvable conflict-free board and none solves an unsolvable conflict-free board.
