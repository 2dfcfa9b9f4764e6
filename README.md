# sudokusolver in Dafny

A model of `sudokusolver.py`, a Sudoku solver that works only by naked-single candidate
elimination and never backtracks, together with proofs about that model.

- **`SudokuNumber`** is one cell. It holds a nine-entry candidate mask and a solution, which is
  0 while the cell is unsolved. `mark(n)` removes candidate `n`. It reports a solution exactly
  when one candidate is left, and at that moment it fixes the solution.
  - Modelled as class `Numbers.SudokuNumber`: an `array<bool>` mask and a mutable `solution`.
  - `Numbers.Eliminate` gives the value-level meaning of `mark`.
- **`SudokuField`** holds a 9x9 `array2` of cells.
  - `solve` seeds a worklist with the clue coordinates in row-major order.
  - For every entry, including entries appended along the way, it marks the entry's value on
    the row, the column and the rest of the 3x3 sector. Every cell that becomes solved is
    appended to the worklist.
  - `get_current_field` reads the 9x9 matrix of solutions back.
  - Modelled as class `Fields.SudokuField`. The worklist is a `seq` scanned by an index.
  - The ghost function `Cells()` views the cells as a map from coordinates to cell states.
    Each method that changes cells is proved to leave them as functions in modules `Numbers`
    and `Propagation` say: `Eliminate` (on one cell) for `mark`, `MarkAll` for one mark loop,
    `Process` for one worklist entry, `Run` for the worklist loop and `Solved` for all of
    `solve`. `GetCurrentField` and `Seeds` change no cell.
- **`check`** is a pure validator. Every row, column and 3x3 sector must sort to 1..9, and when an
  original grid is given, every non-zero original cell must be unchanged. It is proved equal to
  the rules of Sudoku stated cell by cell.
- **`vstack`** stacks equally long lists vertically. It is used to pair up the clue row and
  column indices.

What is proved about `solve`:
- It keeps every cell well formed: a solved cell allows only its solution, and an unsolved cell
  allows at least two numbers, so no mask is ever emptied.
- It keeps every clue.
- It only ever narrows cells.
- It never rules out any solution of the puzzle.
- Each cell enters the worklist at most once, so the list holds at most 81 entries and the loop
  terminates.
- It ends at a fixpoint: no solved cell's value remains a candidate of an unsolved peer.
- When every cell ends up solved and the puzzle has a solution, the returned matrix is that
  solution, and `check` accepts it against the puzzle.

Python 2 semantics are followed: `/` on the non-negative coordinates is floor division, and
`range(9)` is a list, so `pop(i)` removes entry `i`.

`SudokuField` and `solve` validate nothing and raise no error of their own, so the model follows
the code: a 9x9 input with entries 0..9 is a precondition. A contradictory puzzle ends without
error. Cells may stay unsolved, or peers may end up with equal values (two equal clues in a row,
or two unsolved row peers that both lose the same candidate), and `check` then rejects the result.

## Model

| member | source | states |
|---|---|---|
| Stacking.VStack | sudokusolver.py:17-52 | The ValueError case happens exactly when two lists differ in length. Otherwise row i holds entry i of every list in argument order, with as many rows as the common length. No lists give no rows. |
| Validation.Check | sudokusolver.py:55-107 | `check`: every row, column and sector sorts to 1..9, and with an original every non-zero original cell is unchanged. Its meaning is proved in `CheckIffSolvedGrid` and `CheckIffSolution`. |
| Validation.SortsToDigitsIff | sudokusolver.py:77-97 | A line sorts to `arange(1, 10)` exactly when it has nine entries, all digits 1..9, pairwise different. |
| Validation.CheckIffSolvedGrid | sudokusolver.py:55-98 | `check` without an original accepts exactly the grids in which every cell holds a digit and no two peers (same row, column or sector) agree. |
| Validation.CheckIffSolution | sudokusolver.py:55-107 | `check` with an original accepts exactly the solved grids that keep every non-zero cell of the original. |
| Validation.SectorPeersDiffer | sudokusolver.py:90-97 | Two different cells of a sector that passes the sector test hold different values. |
| Validation.SolvedSector | sudokusolver.py:90-97 | Every sector of a grid obeying the rules passes the sector test. |
| Numbers.Init | sudokusolver.py:111-120 | A clue n gives solution n and the single candidate n. A blank gives solution 0 and all nine candidates. Both results are well formed. |
| Numbers.SudokuNumber.constructor | sudokusolver.py:111-120 | The new cell's state is `Init(number)`, with a fresh mask array. |
| Numbers.CountIsCandidates | sudokusolver.py:142 | `mask.sum()` is the number of candidates. |
| Numbers.FirstTrue | sudokusolver.py:143 | `numpy.where(mask == True)[0][0]` is the first true entry: it is true and every entry before it is false. |
| Numbers.Count | sudokusolver.py:142 | `mask.sum()`. It is proved equal to the number of candidates in `CountIsCandidates`. |
| Numbers.Eliminate | sudokusolver.py:139-145 | `mark` on a cell value: the new cell and the returned flag. The mask keeps nine entries. Its meaning is proved in `EliminateSpec` and the lemmas after it. |
| Numbers.EliminateSpec | sudokusolver.py:139-145 | A solved cell is unchanged and reports nothing. On an unsolved cell, exactly the number leaves the candidates, and a solution is reported exactly when one candidate is left. The reported solution is that candidate. Without a report the solution is unchanged. |
| Numbers.EliminateKeepsWellFormed | sudokusolver.py:140-145 | mark keeps the cell invariant. An unsolved cell keeps at least two candidates, so a mask is never emptied. |
| Numbers.EliminateIdempotent | sudokusolver.py:140-145 | Repeating the same mark changes nothing and reports no new solution. |
| Numbers.EliminateNarrows | sudokusolver.py:139-145 | mark keeps a fixed solution and never adds a candidate. |
| Numbers.EliminateKeepsAllowed | sudokusolver.py:139-145 | Marking a number other than s keeps s a candidate, and never fixes a solution other than s. |
| Numbers.SudokuNumber.Mark | sudokusolver.py:122-145 | The new state and the returned flag are those `Eliminate` gives for the old state. |
| Topology.Range | sudokusolver.py:223 | Python 2 `range(n)`: the list 0..n-1, entry k equal to k. |
| Topology.Pop | sudokusolver.py:224 | `list.pop(i)`: the list without its entry i. Its effect on `range(n)` is proved in `PopRange`. |
| Topology.RowTargets | sudokusolver.py:223-228 | The cells the row loop marks, in its order. Their members are proved in `RowTargetsMembers`. |
| Topology.ColumnTargets | sudokusolver.py:230-235 | The cells the column loop marks, in its order. Their members are proved in `ColumnTargetsMembers`. |
| Topology.SectorTargets | sudokusolver.py:237-249 | The cells the nested sector loops mark, in their order. Their members are proved in `SectorTargetsMembers`. |
| Topology.Targets | sudokusolver.py:223-249 | The row, column and sector targets in the order `solve` marks them. They are proved to be exactly the 20 peers in `TargetsArePeers`. |
| Topology.PopRange | sudokusolver.py:223-224 | `range(n)` with entry `skip` popped holds every index except `skip`, in ascending order. |
| Topology.RowTargetsMembers | sudokusolver.py:222-228 | The row loop visits the 8 other cells of the row, in column order, each once. |
| Topology.ColumnTargetsMembers | sudokusolver.py:229-235 | The column loop visits the 8 other cells of the column, in row order, each once. |
| Topology.SectorTargetsMembers | sudokusolver.py:236-251 | The sector loop visits the 4 cells of the sector that share neither the row nor the column, each once. |
| Topology.TargetsArePeers | sudokusolver.py:219-251 | The three loops together mark exactly the 20 peers of the entry, each once, and never the entry itself. |
| Topology.DistinctCoordsBound | sudokusolver.py:213 | A repetition-free list of field coordinates has at most 81 entries. This bounds the worklist. |
| Propagation.InitGrid | sudokusolver.py:163-166 | The cells `SudokuField(init_field)` builds: `Init` of each clue, a cell for every coordinate. |
| Propagation.Values | sudokusolver.py:168-177 | `get_current_field`: a 9x9 matrix whose entry (i, j) is the solution of cell (i, j). |
| Propagation.ClueCoords | sudokusolver.py:208-211 | The worklist seeds `numpy.where` and `vstack` produce. Their properties are proved in `ClueCoordsSpec`. |
| Propagation.MarkAll | sudokusolver.py:225-228 | One mark loop: each target in turn is marked, and the ones whose mark reports a solution are appended. The cells keep their shape. Its effect is proved in `MarkAllEffect` and `MarkAllAppend`. |
| Propagation.Process | sudokusolver.py:219-251 | One worklist entry: its value is marked on its row, column and sector targets. The cells keep their shape. Its effect is proved in `ProcessCells`, `ProcessMarksAround` and `ProcessFound`. |
| Propagation.InitGridConsistent | sudokusolver.py:150-166 | A new field is consistent. Every cell is well formed, every clue is a solved cell, and no solution of the puzzle is excluded. No non-clue cell is solved yet, so the propagation part holds trivially. |
| Propagation.ValuesKeepClues | sudokusolver.py:168-177 | The read-out of a field that keeps its clues holds every clue unchanged. |
| Propagation.MarkAllEffect | sudokusolver.py:222-251 | A mark loop over distinct targets changes each target exactly as one mark does and leaves every other cell alone. A target is appended exactly when its own mark reports a solution, and no target twice. |
| Propagation.MarkAllAppend | sudokusolver.py:222-251 | Running the mark loop over one list and then over another equals one loop over their concatenation, found cells included. |
| Propagation.ClueCoordsSpec | sudokusolver.py:208-211 | The seed list holds exactly the non-zero clue positions, in strictly increasing row-major order. |
| Propagation.SeedStartsRun | sudokusolver.py:208-213 | A consistent field with its clue list satisfies the loop invariant at index 0. |
| Propagation.ProcessCells | sudokusolver.py:219-251 | Processing a solved entry marks its value off every peer and nowhere else. It keeps cells well formed and keeps clues. It only narrows, rules out no solution, and leaves the entry propagated. |
| Propagation.ProcessMarksAround | sudokusolver.py:219-251 | Processing an entry marks its value on every peer and on no other cell. |
| Propagation.MarkedAroundPropagates | sudokusolver.py:219-251 | After its value is marked off its peers, the entry is propagated: each peer is solved or no longer allows the value. |
| Propagation.NarrowingKeepsPropagated | sudokusolver.py:213-251 | A propagated cell stays propagated while cells only narrow. |
| Propagation.MarkedAroundSound | sudokusolver.py:219-251 | Marking an entry's value off its peers rules out no solution of the puzzle, since no peer of a cell holds its value in a solution. |
| Propagation.ProcessFound | sudokusolver.py:226-251 | The appended cells are exactly the peers that were unsolved and are now solved, each once. |
| Propagation.ProcessKeepsRunning | sudokusolver.py:213-251 | Processing the entry at the index keeps the loop invariant at the next index, with the found cells appended. Every solved cell is propagated or still waiting, the list holds only solved cells and has no repeats, and cells only narrow. |
| Propagation.FinishedRunIsSettled | sudokusolver.py:213-253 | When the worklist is exhausted, the field is consistent and at the fixpoint. |
| Propagation.Run | sudokusolver.py:213-251 | The worklist loop as a function: while entries remain, the entry at the index is processed by `Process` and the cells it solves are appended. It terminates because the list never repeats a cell. Its outcome is proved in `RunSettles`. |
| Propagation.Solved | sudokusolver.py:208-251 | All of `solve` on the cells: `Run` from the clue coordinates. Its outcome is proved in `SolvedSettles`. |
| Propagation.RunSettles | sudokusolver.py:213-251 | The worklist loop, `Run`, ends with every entry processed and the loop invariant held. Cells only narrow, and the starting list is a prefix of the final list. |
| Propagation.SolvedSettles | sudokusolver.py:202-253 | After `Solved`, the run from the clue coordinates, the cells are consistent with the clues and settled. They are narrowed from the start, and their read-out keeps every clue. |
| Propagation.NarrowedTransitive | sudokusolver.py:213-251 | Narrowing over two stretches of the loop is narrowing over both. |
| Propagation.CompleteIsTheSolution | sudokusolver.py:202-253 | A consistent, fully solved field equals any solution of the puzzle, and `check` accepts its read-out against the puzzle. |
| Fields.SudokuField.constructor | sudokusolver.py:150-166 | The new field holds one fresh cell per coordinate, each in `Init` state for its clue, and is consistent. |
| Fields.NewCells | sudokusolver.py:165-166 | Creates 81 fresh, distinct cells, each built from its clue. |
| Fields.SudokuField.GetCurrentField | sudokusolver.py:168-177 | Returns the matrix of cell solutions row by row and changes no cell. |
| Fields.SudokuField.MarkAt | sudokusolver.py:226 | Marking one cell changes that cell as `Eliminate` says and no other cell. It returns mark's report. |
| Fields.SudokuField.MarkCells | sudokusolver.py:225-228 | A mark loop leaves the cells as `MarkAll` says and appends its found cells, in order, to the worklist. |
| Fields.SudokuField.ProcessEntry | sudokusolver.py:219-251 | The row, column and sector loops for one entry leave the cells as `Process` says and append its found cells. |
| Fields.Composed | sudokusolver.py:222-251 | The row, column and sector loops run one after another equal one loop over all 20 targets. |
| Fields.SudokuField.Seeds | sudokusolver.py:208-211 | `numpy.where` split into row and column lists and re-paired by `vstack` gives the clue coordinates in row-major order. |
| Fields.SudokuField.Propagate | sudokusolver.py:213-251 | The loop leaves the cells, and returns the whole worklist, exactly as `Run` gives them for the starting cells and the seed list. |
| Fields.SudokuField.Solve | sudokusolver.py:202-253 | The new cells are exactly `Solved` of the old ones. The field stays consistent: clues are kept, no solution is excluded, and cells only narrow. It ends at the fixpoint. The result is the read-out of the cells and keeps every clue. |

## Left out

- Output and entry-point code is not modelled. This covers `show`, `__repr__`, the `get_current_state` stub, `pprint`, `argparse` and the `__main__` example (sudokusolver.py:179-200, 256-289). It is I/O or unused.
- numpy mechanics are replaced by plain sequences.
  - `check` is stated over multisets instead of sorting and comparing.
  - The `numpy.vectorize` construction becomes a loop creating one cell per entry.
  - `numpy.where` becomes the row-major list `ClueCoords`.
- Fields.SudokuField.constructor: requires a 9x9 input with entries 0..9. The code does not validate its input, and other shapes or values are outside the model.
- Validation.Check: requires 9x9 matrices. The numpy comparisons on other shapes are not modelled.
- Numbers.SudokuNumber.Mark: requires 1 <= number <= 9, which `solve` always passes. `mark(0)` would clear the last entry through Python's negative indexing and is not modelled. A solved cell answers `None`, modelled as `false`.
- Fields.SudokuField.Solve: is specified for a field in its invariant state. It does not promise that every cell ends up solved, because naked singles do not solve every puzzle.
- The sector loop's two nested two-step loops are unrolled into the list of their four coordinates, in the same order.
- The end-to-end example puzzle of tests.py (tests.py:16-28) is not proved solved. It would require evaluating the whole run on concrete data. `CompleteIsTheSolution` states what a complete answer means instead.
- sudoku_solver.py is not part of this model. It is an earlier, non-working copy of the same design.
