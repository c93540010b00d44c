# Nonogram line solver, modelled in Dafny

This project models the solving core of a nonogram (paint-by-numbers) solver
written in Rust (`src/game.rs`). A puzzle is a grid of cells, each `Unknown`,
`Filled` or `Empty`. Every row and column carries a *hint*: the lengths of its
runs of Filled cells, in order. The solver works one line at a time:

- `check_line` decides whether a line's runs are exactly its hint;
- `place_all_left` searches, by backtracking, for the leftmost start of every
  hint segment that is consistent with the cells already known, and labels
  every cell with the segment that owns it (or none);
- `place_all_right` does the same from the right, by reversing the line and
  the hint, searching from the left, and reversing and renaming the result;
- `refine_line` compares the two extreme placements cell by cell. A cell owned
  by the same segment in both becomes Filled. A cell owned by no segment in
  both, with both placements past the same number of segments, becomes Empty.
  The function also reports whether the line is solved and whether it changed;
- `Solver::solve` sweeps over the unsolved rows, then the unsolved columns,
  writing refined lines back into the `Game` board, until every line is
  solved or a whole sweep changes nothing.

The model keeps the source's shape. Searches and predicates are functions.
`check_line`, the placement-vector builders, the reversal in `place_all_right`
and the cell loop of `refine_line` are methods with loops; the placement
builders and the reversal work on arrays. `Game` and `Solver` are classes whose
methods update their fields.

Files:

- `wrappers.dfy`: `Option`.
- `line_match.dfy` (`LineMatcher`): cells, lines, hints, `Runs` and `CheckLine`.
- `windows.dfy` (`Windows`): placements as start vectors ("windows").
- `left_placement.dfy` (`LeftPlacer`): the left search.
- `right_placement.dfy` (`RightPlacer`): the mirrored search.
- `extremes.dfy` (`Extremes`): the leftmost and rightmost placements bound every other.
- `refine.dfy` (`LineRefiner`): `refine_line`.
- `game.dfy` (`Grid`): the board.
- `solver.dfy` (`PuzzleSolver`): the driver.
- `line_examples.dfy` (`LineExamples`): concrete lines from the project's line tests.

The central specification notions are these:

- **`Runs(line)`**: the run-length list of a line's Filled cells.
- **`Solution(hint, line, s)`**: `s` is a start vector for the hint's segments such that:
  - the windows are in order, with at least one gap cell between neighbours;
  - the windows stay on the line;
  - no window holds an Empty cell;
  - every Filled cell lies in some window.
- **`ValidStarts`**: what the search itself checks. It holds exactly when the hint is positive and `Solution` holds (`ValidStartsIff`).
- **`Satisfiable(hint, line)`**: some valid start vector exists.
- **`Completes(hint, line, c)`**: `c` has no Unknown cell, agrees with every known cell of `line`, and its runs are `hint`.

## Model

| member | source | states |
|---|---|---|
| LineMatcher.CheckLine | src/game.rs:86-119 | returns true exactly when the run lengths of the line's Filled cells, left to right, equal the hint; the loop invariant ties the pushed segments plus the current run to `Runs` |
| LineMatcher.RunsEmptyIff | src/game.rs:86-119 | the empty hint matches exactly the lines with no Filled cell |
| LineMatcher.RunsSum | src/game.rs:86-119 | the runs found by check_line add up to the number of Filled cells |
| Windows.RunsOfWindows | src/game.rs:86-119 | a line whose Filled cells are exactly the cells of ordered, separated, positive windows has those window lengths as its runs |
| Windows.RunStartsCover | src/game.rs:86-119 | conversely, every line's runs are the lengths of ordered windows (at the runs' starts) covering exactly its Filled cells |
| Windows.NoStrayFilled | src/game.rs:205-209 | if every window is Filled and the line's runs are the hint, no Filled cell lies outside the windows |
| LeftPlacer.CanSegBePlaced | src/game.rs:127-142 | false for a segment longer than the line; otherwise true exactly when the window lies on the line and holds no Empty cell |
| LeftPlacer.PlaceSegmentLeft | src/game.rs:147-156 | a returned start is at or after the search start and fits; no start between the search start and the result (or anywhere, for None) fits |
| LeftPlacer.Fill | src/game.rs:158-162 | the window cells become Filled, every other cell is unchanged, the length is kept |
| LeftPlacer.PlaceInSegmentPlacements | src/game.rs:164-175 | in place on the array: the window's cells hold Some(segment index), every other cell keeps its old value |
| LeftPlacer.PlaceSegmentPositions | src/game.rs:178-189 | the built vector is `Labels(hint, positions, size)`, the per-cell owner of the windows |
| LeftPlacer.LabelsOfOrdered | src/game.rs:178-189 | for ordered windows, a cell is labelled j exactly when it lies in window j, and unlabelled exactly when no window covers it |
| LeftPlacer.RecPlaceLeft | src/game.rs:195-245 | a returned start vector is valid from the current depth: each start is at or after the floor and fits the current snapshot, and the fully filled snapshot matches the hint |
| LeftPlacer.TryStarts | src/game.rs:216-243 | the loop from iteration i returns only start vectors valid from i |
| LeftPlacer.RecLeast | src/game.rs:195-245 | whenever a valid start vector u exists from a depth, the search succeeds there and its result is lexicographically at most u |
| LeftPlacer.TryLeast | src/game.rs:216-243 | the same for the loop from iteration i, by induction on the depth and on u[0] - i, including the retried starts after a failed recursion |
| LeftPlacer.ValidFromFlat | src/game.rs:195-245 | what the recursion checks, flattened: ordered, fitting windows from the floor on, whose filling makes the runs equal the hint |
| LeftPlacer.ValidStartsIff | src/game.rs:195-245 | the search's validity is exactly: positive hint and `Solution` (ordered separated windows avoiding Empty cells and covering every Filled cell) |
| LeftPlacer.SearchLeftmost | src/game.rs:246 | the top-level search succeeds exactly when the line is satisfiable, and then returns a valid vector lexicographically least among all valid ones |
| LeftPlacer.PlaceAllLeft | src/game.rs:123-248 | the method returns the labelling of the search's starts, or None when the search fails |
| LeftPlacer.LeftPlacementShape | src/game.rs:121-248 | None exactly when no placement exists; otherwise the labels come from a solution that agrees with every known cell, label a cell j exactly in window j, and have the lexicographically least starts |
| RightPlacer.RevRev | src/game.rs:251-254 | reversing twice gives back the sequence |
| RightPlacer.Reverse | src/game.rs:251-258 | in place on the array: the contents become the reverse of the old contents |
| RightPlacer.ReversedCopy | src/game.rs:251-254 | a fresh array holding the reversed sequence |
| RightPlacer.RelabelInPlace | src/game.rs:261-265 | in place: every label p becomes len(hint) - 1 - p, every None stays None |
| RightPlacer.PlaceAllRight | src/game.rs:250-267 | the method returns the renamed reversal of the left search on the reversed line and hint, or None |
| RightPlacer.FromRightTwice | src/game.rs:250-267 | mirroring a start vector (start n - s[j] - hint[j], order reversed) keeps it ordered and is its own inverse |
| RightPlacer.MirrorSolution | src/game.rs:250-267 | the mirror of a solution is a solution of the reversed hint on the reversed line |
| RightPlacer.MirrorSatisfiable | src/game.rs:250-267 | the reversed line with the reversed hint is satisfiable exactly when the line is |
| RightPlacer.MirrorLabelAt | src/game.rs:257-265 | the mirrored labelling at cell n - 1 - x is the renamed label of cell x |
| RightPlacer.MirrorLabels | src/game.rs:257-265 | reversing and renaming the mirrored labelling gives back the original labelling (the mirror law) |
| RightPlacer.RightPlacementShape | src/game.rs:250-267 | None exactly when no placement exists; otherwise the labels come from a solution whose starts are lexicographically greatest when read from the right |
| RightPlacer.RightAgrees | src/game.rs:250-267 | the right placement owns every Filled cell and no Empty cell |
| Extremes.MinSolution | src/game.rs:123-267 | the pointwise minimum of two solutions is a solution |
| Extremes.LeftmostBelow | src/game.rs:123-248 | every start of the left search's result is at or before the same segment's start in any valid placement |
| Extremes.RightmostAbove | src/game.rs:250-267 | every start of the right search's result is at or after the same segment's start in any valid placement |
| Extremes.UniqueCompletion | src/game.rs:123-267 | when the line has exactly one valid start vector, the left and right placements are equal, both the labelling of that vector |
| LineRefiner.Refined | src/game.rs:269-326 | the value refine_line computes: None exactly when the line is unsatisfiable; otherwise a line of the same length whose `changed` flag is true exactly when it differs from the input |
| LineRefiner.RefineCells | src/game.rs:290-325 | each new cell is the refinement rule's value; `solved` is true exactly when every cell is forced; `changed` is true exactly when the new line differs from the old |
| LineRefiner.NextSegmentCounts | src/game.rs:283-303 | the counter kept for a placement at cell i is the number of segments whose window ends at or before i |
| LineRefiner.RefineSound | src/game.rs:305-323 | when both placements agree with the known cells, refinement only decides Unknown cells: a known cell is never flipped |
| LineRefiner.RefinesCount | src/game.rs:305-323 | a refinement never adds Unknown cells, and a refinement that changes the line removes at least one |
| LineRefiner.RefinedCellSound | src/game.rs:305-320 | a cell made Filled is covered, and a cell made Empty is uncovered, by every valid placement of the line |
| LineRefiner.SolvedMatches | src/game.rs:290-325 | when every cell is forced, the refined line has no Unknown cell and its runs are the hint |
| LineRefiner.RefineKeepsCompletions | src/game.rs:269-326 | the refined line has exactly the same valid placements as the original |
| LineRefiner.CompletionStarts | src/game.rs:269-326 | every completion of a line is the filling of a valid placement (its own run starts) |
| LineRefiner.RefineKeepsCompleteLines | src/game.rs:269-326 | every completion of the line is still a completion of the refined line |
| LineRefiner.PlacementsAgree | src/game.rs:270-271 | both placements exist exactly when the line is satisfiable, and both agree with its known cells |
| LineRefiner.UniqueCompletionSolved | src/game.rs:269-326 | a line with exactly one completion is finished by one call: it is reported solved, and each cell becomes Filled when that completion covers it and Empty otherwise |
| LineRefiner.RefineLine | src/game.rs:269-326 | the method computes `Refined`: None (the source's panic) exactly when no placement exists; otherwise the rule's line and both flags as above, no known cell flipped, the same valid placements and completions, fewer Unknown cells when changed, and a solved line has no Unknown cell and matches the hint |
| Grid.Game.constructor | src/game.rs:47-59 | the dimensions come from the hint lists, every cell is Unknown, so the board holds rows * cols Unknown cells |
| Grid.Game.GetRow | src/game.rs:62-64 | the row's hint and its cells |
| Grid.Game.SetRow | src/game.rs:66-68 | row i is replaced and every other row is unchanged |
| Grid.Game.GetCol | src/game.rs:71-76 | the column's hint and cell i of every row, top to bottom |
| Grid.Game.SetCol | src/game.rs:78-83 | cell i of each row is replaced by the column's cell, up to the shorter of the two, and nothing else changes |
| Grid.ColumnAfterWrite | src/game.rs:71-83 | reading a column back after writing it gives the written column, and other columns are unchanged |
| Grid.ColumnAfterRowWrite | src/game.rs:62-76 | writing a row changes exactly one cell of each column |
| Grid.ColumnWriteRefines | src/game.rs:78-83 | writing a refinement of a column refines the board, keeps its shape, and leaves it unchanged exactly when the column is unchanged |
| Grid.RefinesGridCount | src/game.rs:340-416 | a board refinement never adds Unknown cells, and a proper one removes at least one (the measure that ends the solve loop) |
| Grid.CompleteGridKept | src/game.rs:409-412 | a board without Unknown cells is the only refinement of itself |
| PuzzleSolver.Solver.constructor | src/game.rs:330-338 | the solver takes the game, with every row and column flag false |
| PuzzleSolver.RowWriteStep | src/game.rs:348-373 | writing a refined row back keeps every solved flag truthful, refines the board and keeps every solution of the puzzle |
| PuzzleSolver.ColumnWriteStep | src/game.rs:381-406 | the same for a refined column |
| PuzzleSolver.Solver.RefineRowAt | src/game.rs:343-374 | None exactly when `Refined` of the old row is None, and then nothing changes and the puzzle has no solution; otherwise the board is the old board with row i replaced by `Refined`'s line, flag i is `Refined`'s solved verdict, the result is its changed verdict, and other flags are unchanged; an unchanged row leaves the board as it was and, when left unmarked, is a fixpoint of refine_line; the board is refined, keeps every solution and loses an Unknown cell when the row changed |
| PuzzleSolver.Solver.RefineColAt | src/game.rs:376-407 | the same for column i: the board becomes the old board with column i replaced by `Refined` of the old column, and flag i becomes its solved verdict |
| PuzzleSolver.Solver.RowPass | src/game.rs:343-374 | the row sweep: None only when some row has no placement, and then no solution refines the board; otherwise the new board and flags are the row sweep of the old ones (`RowsSwept`: every row unmarked before becomes `Refined`'s line with `Refined`'s solved verdict as its flag, and every marked row and its flag stay as they were), the result is true exactly when the board changed, the board is refined, keeps every solution, and it loses an Unknown cell when some row changed; a sweep reporting no change leaves every unmarked row a fixpoint of refine_line |
| PuzzleSolver.Solver.ColPass | src/game.rs:376-407 | the same for the column sweep (`ColsSwept`, stated on the columns of the old and new boards) |
| PuzzleSolver.Solver.Pass | src/game.rs:342-407 | one iteration of the solve loop: None only when some row or column has no placement; otherwise there is a board that is the row sweep of the old board, and the new board is the column sweep of that board; the result is true exactly when the board changed, and an iteration reporting no change leaves every unmarked row and column a fixpoint of refine_line |
| PuzzleSolver.RowsSweptUnique | src/game.rs:343-374 | the row sweep determines the new board and flags from the old ones: two results of it are equal |
| PuzzleSolver.ColsSweptUnique | src/game.rs:376-407 | the same for the column sweep |
| PuzzleSolver.Solver.Solve | src/game.rs:340-416 | the loop terminates (measured by the board's Unknown cells); no flag is ever cleared; the result is Solved exactly when every flag is set, and then every line is done and matches its hint; Stuck comes only after an iteration that changed nothing, so every unmarked row and column is a fixpoint of refine_line that it does not report solved; every solution of the puzzle refining the initial board still refines the final one, is never reported as NoPlacement, and is the final board when Solved |
| LineExamples.LeftOneSegment | src/test/line.rs:91 | hint [3] on `___o_` gives the placement `_000_` |
| LineExamples.RightOneSegment | src/test/line.rs:106 | hint [3] on `_____` has the rightmost placement `__000` |
| LineExamples.LeftTwoSegments | src/test/line.rs:96 | hint [3, 2] on ten Unknown cells gives the placement `000_11____` |
| LineExamples.FilledLeft | src/test/line.rs:116 | hint [1, 1] on `oxox______` has exactly one completion, so the right placement (and the left one, line 100) is `0_1_______` |
| LineExamples.LeftTooLong | src/test/line.rs:99 | hint [3] on two cells gives None, and the line is unsatisfiable |
| LineExamples.LeftOverlap | src/test/line.rs:129 | hint [4] on `oooo__` has the leftmost placement `0000__` |
| LineExamples.RightOverlap | src/test/line.rs:129 | hint [4] on `oooo__` has the rightmost placement `0000__`, after the reversed search rejects starts 0 and 1 |
| LineExamples.OverlapSolves | src/test/line.rs:129 | on `oooo__` with [4] both placements exist, every cell is forced, and the rule gives `ooooxx` |
| LineExamples.OpenOverlap | src/test/line.rs:128 | hint [4] on `______` refines to `__oo__`, changed and not solved |
| LineExamples.EmptyHint | src/test/line.rs:130 | the empty hint on `_____` refines to `xxxxx`, changed and solved |
| LineExamples.SettledGaps | src/test/line.rs:132 | hint [1, 1] on `oxoxxxxx__` refines to `oxoxxxxxxx`, changed and solved |
| LineExamples.LeftCapping | src/test/line.rs:131 | hint [1, 1, 1, 1] on `x_x__o_o__` has the leftmost placement `_0_1_2_3__` |
| LineExamples.RightCapping | src/test/line.rs:131 | and the rightmost placement `___0_1_2_3` |
| LineExamples.CappingUnchanged | src/test/line.rs:131 | the refinement rule gives every cell of that line its old value, so refine_line changes nothing |
| LineExamples.CappingGaps | src/test/line.rs:131 | yet every completion of that line has cells 4, 6 and 8 Empty |

## Left out

- The trace written to an optional file by `Solver::solve` (src/game.rs:355-372, 388-405) is I/O and is not modelled. `Solve` takes no file.
- Integer widths are not modelled. Hint entries are `u32` and positions are `usize` in the source; they are unbounded naturals here. Overflow of `curr_segment_len` or of `start + segment` cannot happen in the model.
- The search bound `line.len() + 1 - segment` (src/game.rs:154, 216) underflows in the source when a segment is longer than the line plus one. Debug builds panic there. The model returns None, as it does for a segment of exactly the line's length plus one.
- The panics are modelled as values. `refine_line`'s two `expect` calls (src/game.rs:270-271) make `RefineLine` return None. `Solve` then returns `NoPlacement`. The "Can't be solved completely" panic (src/game.rs:414) becomes the `Stuck` outcome.
- Index panics become preconditions. This covers out-of-range rows and columns in `Grid.Game.GetRow`, `Grid.Game.SetRow` (`i < |grid|`), `Grid.Game.GetCol` and `Grid.Game.SetCol`, the window bound of `LeftPlacer.CanSegBePlaced` (a segment no longer than the line must have its window on the line), the window bound in `LeftPlacer.PlaceInSegmentPlacements`, and the length `assert_eq!` in `place_segment_positions`.
- `Game::grid_pos`, `Display for Game`, the `Job` enum and the commented-out job heap are not part of this model. Neither are `src/render.rs` (terminal drawing) and `src/main.rs` (puzzle input and the entry point).
- `LineRefiner.RefineLine`: it is not claimed that `refine_line` decides every cell that all completions agree on. `LineExamples.CappingUnchanged` and `LineExamples.CappingGaps` show a line where it does not.
- `PuzzleSolver.Solver.Solve`: `Stuck` is shown to follow an iteration that changed nothing, so every unmarked line is a fixpoint of `refine_line`. It is not shown that the puzzle then has no solution or several: a fixpoint line can still have cells that all completions agree on (`LineExamples.CappingGaps`).
- Rust `Vec` clones passed between `Game`, `refine_line` and the searches are values here (`seq`), so aliasing between them is not modelled. `Game` and `Solver` fields are updated in place as in the source.

## Notes on the line tests

The overlap tests in `src/test/line.rs` (lines 127-133) call `Game::relax_line`. That function is not defined in `src/game.rs`, so the model reads those expectations against `refine_line`:

- Tests `overlap_1`, `overlap_2`, `empty` and `i_dunno` agree with it (`LineExamples.OpenOverlap`, `LineExamples.OverlapSolves`, `LineExamples.EmptyHint`, `LineExamples.SettledGaps`).
- Test `capping` expects `x_x_xoxox_` from `x_x__o_o__` with hint [1, 1, 1, 1]. `refine_line` returns the line unchanged. The two extreme placements own cells 1, 3, 5, 7 and 3, 5, 7, 9. They have passed different numbers of segments at cells 4, 6 and 8, and cells 3, 5 and 7 have different owners (`LineExamples.CappingCounters`, `LineExamples.CappingUnchanged`).
- The expected cells are nevertheless implied by the hint: every completion has them Empty (`LineExamples.CappingGaps`).

The test `right_one_seg_1` (line 106) is commented out in the test file. Its expectation holds in the model (`LineExamples.RightOneSegment`).

The model follows `src/game.rs`.
