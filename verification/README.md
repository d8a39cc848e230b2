# Sudoku constraint-grid engine, modelled in Dafny

This project models the core of a Sudoku generator and solver. Its source is
`puzzles/puzzle.py`, `puzzles/sudoku.py` and the pure grid helpers of
`main.py`. The model covers:

- **Cells.** A cell holds a candidate set of characters. A placeholder
  character means "empty". An `immutable` flag marks a given clue.
- **Contexts.** Every cell links to its successor in its row, its column and
  its box. The builders wire each row, column and box into a circular list,
  and iterators walk a context from any cell once around.
- **Propagation.** A solved value is removed from its row, column and box,
  and the removal cascades when a neighbour drops to one candidate.
- **Solver stages.** Filling empty cells with every option, `normalize`, the
  value-to-cells dictionary, unique resolution run to a fixpoint,
  box/line intersection and combination reduction.
- **Generator.** The randomized backtracking `fill`: box by box, with a
  backtrack distance that depends on where the box sits.
- **Builders.** `SudokuBuilder` validates its inputs, lays the cells out row
  by row, links them and numbers the boxes.
- **Solver driver.** `SudokuSolver` chains the stages and falls back to
  trial and error.
- **`main.py` helpers.** Flattening and unflattening a 9 x 9 grid, the
  rotations, flips, reflections and band switches of `transform_puzzle`,
  `resolve_singulars`, and the `Box` of open cells.

## How the model is laid out

- **The grid is an arena.** The `Puzzle` class (`Grid`) holds flat arrays
  indexed `row * columns + column`: the candidate sets, the immutable flags,
  and the row and column successor links. The `Sudoku` class
  (`SudokuPuzzle`) adds the box successor links and the box numbers. A link
  of a cell is an index into the same arrays, so "the next cell in the row"
  is `rowNext[k]`.
- **Links are proved to form rings.** The wiring loops of the builders are
  proved to leave each row, column and box as one ring of exactly
  `dimension` distinct cells. Those are `IsRing` in `Rings`, `RowLinked` and
  `ColumnLinked` in `Grid`, and `BoxLinked` in `Boxes`.
- **Iterators.** `Rings.ContextIterator` walks such a ring. The stages
  collect a context's cells into a sequence before changing contents, which
  yields the same cells because no stage changes a link.
- **State-changing code is imperative.** Each such operation is a method
  that modifies the arrays. Its `ensures` ties the new state to the old one
  through predicates such as `Evolves`, `Resolved`, `PeersResolved`,
  `CluesKept`, `Placed` and `Covered`. Lemmas about those predicates carry
  the facts from one call to the next.
- **Failures are results.** Each exception the source raises on purpose
  (`CellExcept`, `PuzzleExcept`, `SudokuBuildError`, `SudokuErrors`, and the
  `KeyError` of a missing dictionary entry) becomes an `Err` of the
  `Outcome.Error` value of the same name. Two failures that Python raises on
  its own are not modelled. These are the type checks that typed parameters
  make unreachable, and the `AttributeError` that follows
  `set_if_no_conflict`. Both are listed under "Left out".
- **Randomness is a parameter.** `random.shuffle` and `random.sample` draw
  from an `Rng` the caller supplies, and only a permutation is promised.
- **Unbounded loops take fuel.** `combo_reduction`'s outer loop takes a fuel
  parameter.
- **`main.py` helpers are functions.** The transform helpers are functions
  on `seq<seq<T>>`. The parts that work in place are methods on arrays:
  REFLECT_MINOR, `resolve_singulars` and the `Box` methods.

The program's own spelling slips are modelled as their evident intent:

- `get_context_iterator` is called but only `_get_context_iterator` exists.
- `set_immutable` is called but defined nowhere. It is modelled as an
  assignment of the flag.
- The legacy helpers call `Sudoku.` where they mean `Sudoku_old.`.

### Where the description and the code differ (the model follows the code)

- `SudokuSolver.solve` never runs the intersection or combination stages.
  It runs `_fill_empty_cells`, `normalize`, unique resolution and then the
  trial rounds.
- Unique resolution runs to a fixpoint rather than for a fixed number of
  iterations.
- In `_place_value`, a failure that comes back to box 1 always tries the
  next cell there. It never propagates further up.
- Combination reduction stops only when the combination size equals the
  number of multi-cell values minus two. That equality can be skipped over,
  so the model bounds the loop with fuel.
- `normalize_box_intersection` releases the protection of the cells it
  marked. This makes them mutable afterwards, even when they were clues.

## Model

| member | source | states |
|---|---|---|
| Cells.Len | puzzles/puzzle.py:101-105 | a cell's length is 0 exactly when it holds only the placeholder (or nothing), and never exceeds the set size |
| Cells.Classification | puzzles/puzzle.py:162-185 | `empty` iff the length is 0 and the set is not empty; `solved` iff the length is 1 or the set was emptied; an empty cell is never solved |
| Cells.InitialState | puzzles/puzzle.py:75-90 | a cell is immutable iff it is given a value other than None or the placeholder; its contents are then exactly the value's characters, and {placeholder} otherwise |
| Cells.CheckSudokuCellValue | puzzles/sudoku.py:123-127 | a sudoku cell value longer than one character is refused with CellExcept, and every other value is accepted |
| Cells.Cell.constructor | puzzles/puzzle.py:58-94 | contents and immutability as InitialState says; row and column numbers are the indices plus one |
| Cells.Cell.Set | puzzles/puzzle.py:129-142 | on a mutable cell, the contents become the value's characters and the result is True; an immutable cell is left alone and the result is False |
| Cells.Cell.Clear | puzzles/puzzle.py:227-232 | a mutable cell becomes {placeholder}; an immutable one is unchanged |
| Cells.Cell.ClearIfUnsolved | puzzles/puzzle.py:234-239 | only a mutable cell with more than one candidate becomes {placeholder} |
| Cells.Cell.RemoveAllBut | puzzles/puzzle.py:242-258 | contents become old ∩ keepers, even on an immutable cell; the result is True iff something was discarded |
| Cells.Cell.RemoveValue | puzzles/puzzle.py:261-274 | a mutable cell loses the value; the result is True iff the set got smaller, iff the cell is mutable and held the value |
| Cells.Cell.RemoveValues | puzzles/puzzle.py:276-290 | a mutable cell loses every given value; the result is True iff the set got smaller, iff the cell is mutable and shared a value |
| Cells.NewCell | puzzles/puzzle.py:58-90 | a negative row or column index is refused with CellExcept; otherwise the cell is built as the constructor says |
| Cells.NewSudokuCell | puzzles/sudoku.py:123-127 | CellExcept for a value longer than one character or a negative index; otherwise a fresh cell built from the value |
| Rings.RotateRing | puzzles/puzzle.py:342-387 | a ring walked from any of its members is again a ring (distinct cells, each linked to the next, the last back to the first) |
| Rings.ContextIterator.Next | puzzles/puzzle.py:351-363 | each call yields the next cell of the ring, starting with the start cell, and yields nothing once the walk is back at the start |
| Rings.Walk | puzzles/puzzle.py:321-339 | draining an iterator started at a ring's first cell yields exactly that ring |
| Grid.RowRingIsRing | puzzles/puzzle.py:633-639 | after row linking, each row's cells in order form a ring |
| Grid.ColumnRingIsRing | puzzles/puzzle.py:642-647 | after column linking, each column's cells in order form a ring |
| Grid.RowFromFacts | puzzles/puzzle.py:342-363 | the row walk from any cell is a ring of `columns` cells that begins at that cell and holds exactly the cells of its row |
| Grid.ColumnFromFacts | puzzles/puzzle.py:366-387 | the column walk from any cell is a ring of `rows` cells that begins at that cell and holds exactly the cells of its column |
| Grid.StrInjective | puzzles/puzzle.py:428-446 | two cells render to the same sorted string iff their candidate sets are equal |
| Grid.EmptyCells | puzzles/puzzle.py:497-501 | the listed cells are exactly the empty ones |
| Grid.Puzzle.BuildCells | puzzles/puzzle.py:619-630 | BuildError iff a value is longer than one character or the list is too short; otherwise cell (r, c) is built from `values[c + r*columns]` |
| Grid.Puzzle.LinkRows | puzzles/puzzle.py:633-639 | each cell links to the next in its row, and the last one links back to the first |
| Grid.Puzzle.LinkColumns | puzzles/puzzle.py:642-647 | each cell links to the next in its column, and the last one links back to the first |
| Grid.Puzzle.FirstCellInRow | puzzles/puzzle.py:512-525 | PuzzleExcept iff the row number is outside 1..rows; otherwise the first cell of that row |
| Grid.Puzzle.FirstCellInColumn | puzzles/puzzle.py:528-541 | PuzzleExcept iff the column number is outside 1..columns; otherwise the top cell of that column |
| Grid.Puzzle.ValueInContext | puzzles/puzzle.py:187-203 | True iff some cell of the context holds the value |
| Grid.Puzzle.Equals | puzzles/puzzle.py:428-446 | True iff the dimensions match and every cell's sorted string equals the other's |
| Grid.Puzzle.Clear | puzzles/puzzle.py:457-463 | every mutable cell becomes {placeholder} and clues keep their contents |
| Grid.Puzzle.ClearUnsolvedCells | puzzles/puzzle.py:465-471 | exactly the mutable cells with more than one candidate become {placeholder} |
| Grid.Puzzle.EmptyCount | puzzles/puzzle.py:473-479 | the empty cells are appended to the kept list without clearing it, and the count is the list's new length |
| Grid.NewPuzzle | puzzles/puzzle.py:402-412 | PuzzleExcept iff a dimension is below 1 |
| Boxes.Isqrt | puzzles/sudoku.py:163-173 | the box dimension is the exact integer square root: s*s ≤ n < (s+1)*(s+1) |
| Boxes.IsSquareExact | puzzles/sudoku.py:959-962 | the square test holds iff some natural number squares to n |
| Boxes.BoxRingIsRing | puzzles/sudoku.py:915-937 | after the three wiring phases, each box's cells in row-major order form a ring |
| Boxes.BoxRingDistinct | puzzles/sudoku.py:915-937 | the dimension cells of a box are pairwise distinct |
| Boxes.BoxOfCell | puzzles/sudoku.py:940-943 | the box number of (r, c) lies in 1..dimension, and that box's top-left cell is at (r rounded down to a band, c rounded down to a band) |
| Boxes.BoxFromFacts | puzzles/sudoku.py:129-149 | the box walk from any cell is a ring of dimension cells that begins at that cell and holds exactly the cells with its box number |
| Boxes.FirstCellInBox | puzzles/sudoku.py:180-194 | PuzzleExcept iff the box number is outside 1..dimension; otherwise the top-left cell of that box |
| Boxes.FirstCellInBoxAgrees | puzzles/sudoku.py:192-194 | inside 1..dimension, the formula as written gives the top-left cell of the box |
| Boxes.FirstCellInBoxZero | puzzles/sudoku.py:189 | the guard as written lets box 0 through and returns cell 6 of a 9 x 9 grid |
| Boxes.BackupCount | puzzles/sudoku.py:261-264 | the backtrack distance is at least 1, and it equals the box dimension iff the box starts a band |
| SudokuBuilding.ValidatePlaceholder | puzzles/puzzle.py:652-659 | BuildError iff the placeholder is not one character or appears in the alphabet |
| SudokuBuilding.ValidateDimension | puzzles/sudoku.py:945-962 | SudokuBuildError iff the dimension is negative or not a perfect square |
| SudokuBuilding.LinkNeighbours | puzzles/sudoku.py:915-917 | first phase: every cell but the last of its row links to its right neighbour |
| SudokuBuilding.LinkEdgesDown | puzzles/sudoku.py:924-928 | second phase: a box's right-edge cell links to the start of the box's next line |
| SudokuBuilding.LinkCornersBack | puzzles/sudoku.py:932-937 | third phase: a box's bottom-right cell links back to its top-left cell |
| SudokuBuilding.NumberBoxes | puzzles/sudoku.py:940-943 | each cell gets box number `bd*(r//bd) + c//bd + 1` |
| SudokuBuilding.LinkCellsByBox | puzzles/sudoku.py:903-943 | the wiring leaves every box a ring and numbers every cell; on a square dimension the sudoku is well formed |
| SudokuBuilding.ScanStartingValues | puzzles/sudoku.py:866-874 | SudokuBuildError iff an element is not exactly one character; otherwise the set of non-placeholder values |
| SudokuBuilding.SetToList | puzzles/sudoku.py:879 | the option list holds each value of the set exactly once |
| SudokuBuilding.Build | puzzles/sudoku.py:827-901 | SudokuBuildError iff a validation fails; otherwise the cells are built row-major from the values, rows, columns and boxes are rings, the boxes are numbered, and the options are the given alphabet or the distinct given values |
| SudokuPuzzle.CountUnsolvedBounds | puzzles/sudoku.py:765-772 | the unsolved count is at most the cell count; it is 0 iff every cell is solved, and the cell count iff none is |
| SudokuPuzzle.Sudoku.ContextOf | puzzles/sudoku.py:196-219 | PuzzleExcept iff the number is outside 1..dimension; otherwise dimension cells that are exactly that row, column or box |
| SudokuPuzzle.Sudoku.GetContext | puzzles/sudoku.py:196-219 | walking the links gives the context ContextOf describes |
| SudokuPuzzle.Sudoku.BoxCells | puzzles/sudoku.py:129-149 | the box iterator from a cell yields its box's walk |
| SudokuPuzzle.Sudoku.RemoveCellValueFromContext | puzzles/puzzle.py:205-225 | refused unless the cell has exactly one candidate; otherwise that value is resolved in every other cell of the context, and any cell newly solved on the way has its own peers resolved; candidates only shrink, clues are untouched |
| SudokuPuzzle.Sudoku.RemoveCellValueFromView | puzzles/sudoku.py:75-79 | for a solved cell, its value is resolved in its whole row, column and box, cascading; otherwise nothing changes |
| SudokuPuzzle.Sudoku.RemoveValuesFromContext | puzzles/sudoku.py:710-723 | every value is resolved in every cell of the context, with the cascade; the result is True iff the candidate total dropped |
| SudokuPuzzle.Sudoku.RemoveValueFromContext | puzzles/sudoku.py:725-738 | PuzzleExcept iff the context number is invalid; otherwise the value is resolved throughout the context and the result is True iff something was removed |
| SudokuPuzzle.Sudoku.SetImmutable | puzzles/sudoku.py:566 | the flag of one cell is set and no other flag changes |
| SudokuPuzzle.Sudoku.FillEmptyCells | puzzles/sudoku.py:388-398 | every empty mutable cell receives all value options, and nothing else changes |
| SudokuPuzzle.Sudoku.Normalize | puzzles/sudoku.py:400-413 | afterwards every solved cell has its value resolved in all its peers; candidates only shrink |
| SudokuPuzzle.Sudoku.UnsolvedCellCount | puzzles/sudoku.py:765-772 | the count of unsolved cells |
| SudokuPuzzle.Sudoku.ValueExistsWithinView | puzzles/sudoku.py:100-115 | True iff the value is in some cell of the cell's row, column or box |
| SudokuPuzzle.Sudoku.SetIfNoConflict | puzzles/sudoku.py:81-98 | places the value iff the cell is empty and no peer holds it; then it is the only holder in the view, and nothing else changes |
| Propagation.TotalShrinks | puzzles/puzzle.py:205-225 | when no cell gains a candidate, the candidate total does not grow, and it stays equal only when nothing changed; this is why the cascade terminates |
| Propagation.EvolvesTotal | puzzles/puzzle.py:205-225 | a propagation step never increases the candidate total, and one that keeps it changed nothing |
| Propagation.PeersResolvedStable | puzzles/sudoku.py:400-413 | once a solved cell's peers are free of its value, further propagation keeps them so |
| Propagation.ViewResolved | puzzles/sudoku.py:75-79 | clearing the row, then the column, then the box of a cell resolves its whole view |
| SudokuSolving.TallyValues | puzzles/sudoku.py:461-467 | PuzzleExcept iff a non-empty cell holds a value outside the options; otherwise each option maps to exactly the non-empty cells holding it |
| SudokuSolving.KeepSizes | puzzles/sudoku.py:469-473 | exactly the entries whose cell count lies in [min, max] survive, unchanged |
| SudokuSolving.DefaultRangeKeepsAll | puzzles/sudoku.py:469 | with the range (1, 9) no entry is filtered, even an empty one |
| SudokuSolving.CellsPerValue | puzzles/sudoku.py:447-477 | the dictionary of value to holding cells, filtered by size, or PuzzleExcept for an unknown value |
| SudokuSolving.UniquesAreSingles | puzzles/sudoku.py:496 | with max size 1, every value kept has exactly one holder, a non-empty cell of the context |
| SudokuSolving.ResolveUnique | puzzles/sudoku.py:503-507 | nothing happens when the holder has at most one candidate. A mutable holder with several becomes {v} and the candidate total drops. A given clue with several is refused by `set`, and `remove_value_from_view` then raises CellExcept with nothing changed. Other cells only shrink; clues are untouched |
| SudokuSolving.ResolveUniques | puzzles/sudoku.py:494-509 | the loop over the unique values in ascending order. It raises CellExcept if some unique value's holder is a clue with several candidates, and only then (or when the placeholder is a value). Otherwise the result is True iff some unique value's holder had several candidates, and True lowers the total |
| SudokuSolving.ResolveUniquesInContext | puzzles/sudoku.py:481-509 | PuzzleExcept iff the context or its dictionary fails. CellExcept whenever a unique value's holder is a clue with several candidates. Otherwise True iff some unique value sat in a cell with more than one candidate, and True lowers the candidate total. A cell is set only to its unique value; without a change the context is settled |
| SudokuSolving.ResolveUniquesOfKind | puzzles/sudoku.py:431-438 | one sweep over all rows, all columns or all boxes; errors are PuzzleExcept or CellExcept; a change lowers the candidate total; no change means every context of that kind is settled |
| SudokuSolving.ApplyToAllContexts | puzzles/sudoku.py:416-444 | repeats sweeps to a fixpoint, which it reaches because each changing pass lowers the candidate total. Errors are PuzzleExcept or CellExcept. The result is True iff the grid changed; clues are kept; at the end every context is settled |
| SudokuSolving.RemoveFromBoxProtected | puzzles/sudoku.py:563-573 | with the holders protected, the value is resolved in the rest of the box; holders and clues keep their contents, and the protection is released afterwards |
| SudokuSolving.NormalizeValueInBox | puzzles/sudoku.py:555-573 | acts only when all holders share one box; then the value is cleared from the rest of that box |
| SudokuSolving.NormalizeValues | puzzles/sudoku.py:551-573 | every value is handled; a reported change comes from the last value handled, whose holders share a box |
| BoxIntersection.NormalizeBoxIntersection | puzzles/sudoku.py:537-575 | PuzzleExcept iff a cell of the line holds an unknown value; otherwise each value confined to one box along the line is cleared from the rest of that box |
| BoxIntersection.IntersectionPass | puzzles/sudoku.py:519-529 | one pass over all rows then all columns; candidates only shrink, and True means the total dropped |
| BoxIntersection.ResolveIntersectingContexts | puzzles/sudoku.py:511-533 | passes repeat until one makes no change or fails; candidates only shrink and immutability is only ever released, never granted |
| Combos.FindCombination | puzzles/sudoku.py:666-708 | MissingKey when the subject or another value of its cells is not in the dictionary; otherwise either (∅, ∅), or as many values as cells, containing the subject and all its cells |
| Combos.KeepOnly | puzzles/sudoku.py:634-635 | each combination cell keeps only the combination's values; True iff something changed |
| Combos.ApplyCombination | puzzles/sudoku.py:634-646 | combination cells hold only its values; other mutable unsolved cells of the context lose them; protection is released afterwards |
| Combos.ComboDict | puzzles/sudoku.py:602 | the value-to-cells dictionary of the context for values held by at least two cells |
| Combos.ComboReduction | puzzles/sudoku.py:577-664 | an invalid context is an error; candidates only shrink; True iff the candidate total dropped |
| Combos.FindSharedLines | puzzles/sudoku.py:740-759 | PuzzleExcept iff the cells are one cell; otherwise the shared row, else the shared column, else none, each as the cells show |
| Combos.SameLinesSameCell | puzzles/sudoku.py:751-752 | one row and one column at once happens iff there is exactly one cell |
| Generator.FirstHolderIsFirst | puzzles/sudoku.py:365-372 | the holder found is the first box cell holding the value |
| Generator.EligibleMeaning | puzzles/sudoku.py:351-386 | if the box holds the value, exactly that one cell is eligible; otherwise exactly the empty box cells whose row and column lack it |
| Generator.InRow | puzzles/sudoku.py:376-381 | True iff the value is in the cell's row |
| Generator.InColumn | puzzles/sudoku.py:376-381 | True iff the value is in the cell's column |
| Generator.EligibleBoxCells | puzzles/sudoku.py:351-386 | PuzzleExcept iff the box number is outside 1..dimension; otherwise the eligible cells EligibleMeaning describes |
| Generator.EligibleUnblocked | puzzles/sudoku.py:364-386 | when the box does not already hold the value, the box is free of it and every eligible cell is an empty box cell whose row and column are free of it |
| Generator.PlaceKeepsNoRepeat | puzzles/sudoku.py:321-323 | setting the value in a cell whose row, column and box lack it keeps the value from repeating in any row, column or box |
| Generator.PlacedKeepsNoRepeat | puzzles/sudoku.py:321-323 | placing one value does not make another value repeat |
| Generator.PlacedKeepsClues | puzzles/sudoku.py:321-323 | placing a value keeps the clues and their being filled, and leaves a cell with at most one candidate if it had that |
| Generator.ClearKeeps | puzzles/puzzle.py:457-463 | `clear` keeps the clues, keeps every cell at one candidate at most, and makes no value other than the placeholder repeat |
| Generator.BoxFull | puzzles/sudoku.py:221-259 | the pigeonhole step: a box that holds each of at least `dimension` distinct options, one candidate per cell at most, leaves no cell without one of them |
| Generator.FilledSolved | tests/test_puzzles.py:45-55 | every box holding every one of at least `dimension` distinct options, with one candidate per cell at most and the placeholder not an option, leaves every cell holding one option alone, so the unsolved count is 0 |
| Generator.PlaceValue | puzzles/sudoku.py:270-349 | only empty mutable cells change, each to the value alone. FAILED restores the grid and comes with a positive distance; PASSED comes with one of at most 0. PASSED on filled clues means every box from here on holds the value. A value that did not repeat in a row, column or box still does not |
| Generator.TryCells | puzzles/sudoku.py:317-347 | the loop over shuffled eligible cells keeps the same promises as PlaceValue, clearing each tentative cell on failure |
| Generator.PlaceAll | puzzles/sudoku.py:241-252 | clues are kept and stay filled. Cells keep one candidate at most, and no value comes to repeat. When every value passed, on filled clues and with a placeholder that is no value, every box holds every value |
| Generator.Fill | puzzles/sudoku.py:221-259 | PuzzleExcept iff there are no value options, leaving the grid as it was. Clues are kept, and no value option comes to repeat in a row, column or box. PASSED on filled clues means every box holds every option. PASSED from clues and empty cells, with at least `dimension` distinct options that exclude the placeholder, leaves no cell unsolved |
| Randomness.Rng.Shuffle | puzzles/sudoku.py:238 | the shuffled list is a permutation of the input |
| Randomness.Rng.Sample | puzzles/sudoku.py:318 | a full-length sample is a permutation of the input |
| Solver.NewSolver | puzzles/sudoku.py:973-977 | SudokuErrors iff no cell is solved; otherwise a solver over an unshared copy with the same contents and flags |
| Solver.Normalized | puzzles/sudoku.py:986-996 | True iff every cell is solved after fill and normalize, and then every cell's peers are resolved |
| Solver.ClearUnsolvedKeeps | puzzles/puzzle.py:465-471 | `clear_unsolved_cells` leaves every non-clue cell at most one candidate and makes no value other than the placeholder repeat |
| Solver.TrialRounds | puzzles/sudoku.py:1007-1015 | up to ten rounds of clearing unsolved cells and filling. Clues are kept, and no value option comes to repeat among the solved cells. A passing round covers every box with every value; with single-valued clues and at least `dimension` distinct options it leaves no cell unsolved |
| Solver.SudokuSolver.Solve | puzzles/sudoku.py:983-1020 | errors become SudokuErrors, including a CellExcept from unique resolution; clues keep their candidates. Ending by normalizing or by unique resolution leaves every cell solved. A passing trial round leaves every value in every box, and, from single-valued clues with at least `dimension` distinct options, no cell unsolved |
| Transforms.FlattenRows | main.py:160-180 | flattening the 9 rows cut from an 81-element list gives the list back |
| Transforms.RowsFlatten | main.py:160-180 | cutting a flattened 9 x 9 grid into rows gives the grid back |
| Transforms.UnflattenPuzzle | main.py:169-180 | a list shorter than 81 is an index error; otherwise 9 rows of 9 whose flattening is the first 81 elements |
| Transforms.ReflectMajorTwice | main.py:152-157 | the transpose applied twice is the identity |
| Transforms.Rotate180IsHalfTurn | main.py:224-228 | ROTATE_180 is the reverse of the flattened grid, which is the half turn |
| Transforms.BackwardIsQuarterLeft | main.py:237-242 | the index order of ROTATE_CCW_90_old (and of ROTATE_CW_90 as written) is the counter-clockwise quarter turn |
| Transforms.CcwIndexIsBackward | main.py:247 | the index `(9x - 1) mod 82` for x in 1..81 is the same permutation as the column walk `8-i+9j` |
| Transforms.CcwIsBackward | main.py:245-250 | ROTATE_CCW_90 produces the same list as ROTATE_CCW_90_old |
| Transforms.ClockwiseIsQuarterRight | main.py:230-235 | the corrected ROTATE_CW_90 order is the clockwise quarter turn |
| Transforms.ClockwiseMismatch | main.py:230-235 | on the grid numbered 0..80, ROTATE_CW_90 as written puts 8 in the top-left corner where a clockwise turn puts 72 |
| Transforms.QuarterTurns | main.py:230-250 | the two quarter turns undo each other, and two clockwise quarter turns make the half turn |
| Transforms.SelfInverse | main.py:252-277 | the half turn, both flips and the minor reflection are involutions |
| Transforms.VerticalFlipMirrors | main.py:252-258 | VERTICAL_FLIP reverses each row |
| Transforms.HorizontalFlipUpends | main.py:260-265 | HORIZONTAL_FLIP reverses the order of the rows |
| Transforms.ReflectMinor | main.py:270-277 | the caller's rows are reversed in place, each row reversed, and the result is the reflection in the minor diagonal |
| Transforms.ColumnSwitchMeaning | main.py:280-307 | a column switch reads each row's column bands in the switched order and returns one flat list |
| Transforms.RowSwitchMeaning | main.py:309-333 | a row switch returns the rows with their bands in the switched order |
| Transforms.ColumnSwitchTwice | main.py:280-307 | a column switch applied twice is the identity |
| Transforms.RowSwitchTwice | main.py:309-333 | a row switch applied twice is the identity |
| Transforms.TransformUndone | main.py:221-338 | every transform yields a 9 x 9 grid (flat only for column switches), and its undoing transform gives the puzzle back |
| Transforms.TransformPuzzle | main.py:221-338 | the result of each branch, with ROTATE_CW_90 taking the corrected clockwise order of the finding below (`Transforms.ClockwiseIsQuarterRight`) rather than the order as written; only REFLECT_MINOR changes the caller's grid |
| Legacy.Singles | main.py:506-509 | the singular characters are exactly the listed characters occurring once in the pool |
| Legacy.SingleHolder | main.py:507-517 | a character occurring once in the pool sits in at most one multi-candidate cell |
| Legacy.ResolvedCells | main.py:511-517 | each cell ends up settled to the first singular character it holds (if multi-candidate); the line changes iff some multi-candidate cell holds one |
| Legacy.SearchString | main.py:500-503 | the search string is the multi-candidate cells concatenated in order |
| Legacy.SingularChars | main.py:506-509 | the listed characters occurring exactly once, in list order |
| Legacy.SettleFirst | main.py:512-517 | the first multi-candidate cell holding the character becomes that character; True iff there was one |
| Legacy.ResolveSingulars | main.py:498-519 | the line becomes the settled line, and the result is True iff the line changed |
| Legacy.OffLineTwice | main.py:548-553 | masking a line twice is masking it once |
| Legacy.Box.constructor | main.py:535-539 | nine blank slots and all nine cells open |
| Legacy.Box.MaskLine | main.py:548-553 | exactly the open cells on the line are deleted; CellExcept iff the deletions empty a non-empty list |
| Legacy.Box.SetNumeral | main.py:579-588 | the slot takes the numeral (negative indices wrap); an index error outside -3..2 changes nothing; the open list loses the entry equal to (row, col) |
| Legacy.Box.DropOpen | main.py:586-588 | the backward deletion loop leaves exactly the open entries other than (row, col), in their order |

## Left out

- Logging, `puzzle_log`, `log_line`, `__str__` and every other rendering. They format text and have no behaviour to verify.
- The drawing and UI modules, the Sphinx config, the empty Kakuro stub and the interactive `main()`. These are I/O or empty.
- The older generator and solver in `main.py` (`generate_matrix`, `create_puzzle`, `take_inventory`, `Sudoku_old.solve`, `create_puzzle_string`, `place_char`). They run on class-level global state and undefined names.
- `Box.randomly_place_char`, `get_row`, `open_list_is_empty` and `get_grid_coords`. They are accessors, or a random pick the generator above replaces.
- Randomness itself. `Randomness.Rng` supplies the draws, and only a permutation is promised about `shuffle` and `sample`.
- `Puzzle.random_empty`. It is a random choice.
- Floating-point `math.sqrt`. It is replaced by an exact integer square root. On the perfect squares the source accepts, the two agree.
- Exception chaining and messages. Each failure is the error value it surfaces as, without the wrapped cause.
- Combos.ComboReduction: the outer loop is bounded by a `fuel` parameter and reports OutOfFuel when the fuel runs out. The source's loop has no bound when its stopping equality is skipped.
- SudokuSolving.ResolveUniques: when the placeholder is itself a value option and is the unique value of a cell, the result is not pinned down beyond "an error, or a change". The builder never makes the placeholder an option.
- Solver.SudokuSolver.Solve: the alias `puzzle_backup` is the same object as the working copy, so "restoring" it changes nothing. The model keeps one puzzle.
- SudokuSolving.NormalizeValues: states what each value's step does and that a reported change comes from the last value handled. It does not state the result in terms of all values, because `changed` is reset for each value.
- Generator.PlaceValue: the `except` clause is not modelled, because the only raise beneath it is for a box number the recursion never produces.
- Solver.SudokuSolver.Solve: after a passing trial round, promises every box holding every value and, from single-valued clues, every cell solved. It does not promise that no value repeats in a row or column. The solved cells `normalize` and unique resolution leave behind are not proved free of repeats, and `fill` does not check the row and column of a value a box already holds. `Generator.Fill` and `Solver.TrialRounds` do promise that no value comes to repeat when none did before.
- SudokuPuzzle.Sudoku.SetIfNoConflict: the source assigns the bare string `value` to `contents` (puzzles/sudoku.py:97), not the set `{value}`. After that, the set operations on the cell (`remove_value`, `remove_values`, `remove_all_but`) raise AttributeError. The model stores `{value}` and does not model that later failure.
- SudokuBuilding.Build and SudokuBuilding.ScanStartingValues: the starting values are typed as a sequence of strings. The `isinstance(starting_values, list)` check (puzzles/sudoku.py:853-854) and the `isinstance(element, str)` check (puzzles/sudoku.py:867-868) cannot fail on such input, so their SudokuBuildError paths are not modelled.
- Transforms.TransformPuzzle: the model covers only 9 x 9 grids, which is the only shape the code is written for. The unknown-transform branch cannot be reached with a closed enumeration of transform types.
- Transforms.UnflattenPuzzle: the source empties and refills its argument list in place. The model returns the rows as a new value.
- Legacy.ResolveSingulars: the unused `context` and `line_index` parameters are dropped.
- The starting-values build uses the `dimension` parameter rather than the list's size. This is modelled as written: `Build` takes `dimension` for the grid.

## Findings

| source | as written | input that shows it | evidently intended | confidence | as-written member | corrected member |
|---|---|---|---|---|---|---|
| main.py:230-235 | ROTATE_CW_90 reads the flat grid in the same order as ROTATE_CCW_90_old, so it turns the grid counter-clockwise | the grid numbered 0..80 row by row: the result starts with 8, where a clockwise turn starts with 72 | a clockwise quarter turn, `out[i][j] == in[8-j][i]` | not executed | Transforms.ClockwiseMismatch | Transforms.ClockwiseIsQuarterRight |
| puzzles/sudoku.py:189 | the guard `1 > box_number > self.dimension` can never hold, so an out-of-range box number is not refused | box number 0 on a 9 x 9 grid returns cell 6 instead of raising | refuse a box number outside 1..dimension with PuzzleExcept | not executed | Boxes.FirstCellInBoxZero | Boxes.FirstCellInBox |
