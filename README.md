# Sudoku constraint engine, modelled in Dafny

This project models the constraint engine of a Python Sudoku solver and proves
properties of that model. The engine has three parts:

- **BoardFunctions** (`board_functions.py`). The validity check scans a
  cell's row, column and 3x3 box. Propagation removes an assigned value from
  the candidate lists of the row, then the column, then the box. Every
  visited cell whose list has exactly one element after the attempted
  removal goes through the single-candidate step, whether or not anything
  was removed. That step may assign the cell and propagate again.
- **SudokuBoardState** (`sudoku_board_state.py`). A search snapshot holds a
  cursor, a grid and a candidate table. It can build a child snapshot,
  decide whether it is a goal, and report the next unassigned cell together
  with its candidates.
- **InitialBoardSetup** (`initial_board_setup.py`). It validates the given
  cells, builds the first candidate table, and propagates every assigned
  cell in row-major order.

The 9x9 grid is `seq<seq<int>>`, with 0 for an unassigned cell. The table is
`seq<seq<seq<int>>>`, one candidate list per cell. Lists stay lists: the code
reads element `[0]`, tests `len == 1` and pops only the first occurrence of a
value.

Layout:

- `grid.dfy` (module `Grid`): the shared types, cell and list updates,
  and the step relation `Evolves`. A step fills only unassigned cells, each
  from its own list, and only drops candidates.
- `validity.dfy` (module `Validity`): box ranges and the validity check.
- `propagation_spec.dfy` (module `PropagationSpec`): mutually recursive
  functions that say what each propagation step returns. Each loop becomes
  recursion on its index. The `...Facts` lemmas prove what the steps do.
  Termination is proved by this measure, in order:
  - the set of unassigned cells;
  - then a phase rank;
  - then the loop indices.

  A nested propagation only starts after a 0 cell has been filled.
- `board_functions.dfy` (module `BoardFunctions`): the propagation as the
  source runs it, with loops that rebind the grid and table after each
  removal and each recursive call. Each method is proved equal to its specification
  function.
- `board_state.dfy` (module `BoardState`): class `SudokuBoardState`.
  - The scans are specified by the sequence of cells they examine and the
    first unassigned cell in that sequence.
  - `AsWrittenOrder` is the scan order the code implements; `IntendedOrder`
    is the corrected one.
- `initial_setup.dfy` (module `InitialSetup`): class `InitialBoardSetup`.

`deal_with_1_picks` is called by `next_state` and by `_initial_propagation`, but
no file of the engine defines it: the `BoardFunctions` class
(`board_functions.py:6-174`) has no such method, so as written both calls
(`sudoku_board_state.py:48`, `initial_board_setup.py:86`) would raise an
`AttributeError`. The model passes it in as a function
parameter of type `Picks`. Two assumptions about it are stated where they are
used:

- `PreservesShape`: it returns a 9x9 grid and table.
- `EvolvesAll`: it is itself a step in the sense of `Evolves`. Only
  `ChildEvolves` and the stronger initial-setup facts assume this.

Both predicates live in `grid.dfy`.

Where the code departs from an idealised constraint engine, the model
follows the code:

- The validity check with its flag on also looks at the cell itself. An
  "elsewhere" check would exclude the cell.
- A forced assignment that fails the check leaves the cell's one-element list
  as it is, where emptying the list would record the dead end.
- Candidates are lists, not sets, and each removal pops only the first
  occurrence.
- Each pass also visits the cell it starts from.
- The box pass drops the tables its cascades produce
  (`board_functions.py:159`). So the table the box pass returns is the
  incoming table with the value popped from the nine box cells only
  (`BoxSweptTable`).

## Model

| member | source | states |
|---|---|---|
| Validity.FindBoxRange | board_functions.py:8-14 | three consecutive indices; [6, 7, 8] for every index outside 0..8 |
| Validity.FindBoxRangeBand | board_functions.py:8-14 | for an index on the board, the range holds exactly the indices of its band (same `/ 3`) |
| Validity.FindBoxRangeAt | board_functions.py:8-14 | the k-th index of the range is the band start (`i / 3 * 3`) plus k |
| Validity.InBox | board_functions.py:16-28 | flag off: False; flag on: True exactly when n occurs in some cell of p's box |
| Validity.InHorizontal | board_functions.py:30-39 | flag off: False; flag on: True exactly when n occurs in p's row |
| Validity.InVertical | board_functions.py:41-50 | flag off: False; flag on: True exactly when n occurs in p's column |
| Validity.IsValidPos | board_functions.py:52-54 | flag off: True for any board; flag on: True exactly when n occurs in no cell sharing p's row, column or box, p itself included |
| Validity.ValidDiffersFromCell | board_functions.py:52-54 | a value the flag-on check accepts differs from the value at p, so the single-candidate step only fills a 0 cell with a non-zero value |
| Grid.IndexOf | board_functions.py:95 | `list.index`: an index holding n with no earlier occurrence of n |
| Grid.RemoveFirst | board_functions.py:93-100 | the list unchanged when n is absent (the `ValueError` path); when n is present, the list with its first occurrence of n taken out and every other element kept in order, one element shorter |
| Grid.RemoveFirstCount | board_functions.py:95-96 | popping removes exactly one occurrence of n and keeps every other value with its count |
| Grid.Assign | board_functions.py:78 | the written cell holds the value; every other cell is unchanged |
| Grid.AssignShrinksZeros | board_functions.py:73-80 | filling a 0 cell with a non-zero value strictly shrinks the set of 0 cells; this is what makes the recursion terminate |
| PropagationSpec.Dealt | board_functions.py:56-83 | reference definition of `_deal_with_1_possible_action`: unchanged on a non-zero cell or when the first candidate fails the flag-on check, otherwise that candidate written and propagated; its contract gives a 9x9 result that keeps every assigned cell assigned |
| PropagationSpec.CellStep | board_functions.py:92-107 | one visited cell of a pass: n popped from its list if present, then the single-candidate step whenever the list has exactly one element, popped or not; 9x9 result, assigned cells stay assigned |
| PropagationSpec.RowSwept | board_functions.py:85-109 | `_propagate_horizontally` from column i: `CellStep` on each cell of p's row in column order, grid and table threaded through, then `ColumnSwept` from row 0; assigned cells stay assigned |
| PropagationSpec.ColumnSwept | board_functions.py:111-136 | `_propagate_vertically` from row i: `CellStep` on each cell of p's column in row order, then `BoxSwept` from (0, 0); assigned cells stay assigned |
| PropagationSpec.BoxSwept | board_functions.py:138-163 | `_propagate_box_wise` from band offsets (ri, ci): each box cell's cascade keeps its grid, but the pass goes on with the pre-cascade table with n popped; assigned cells stay assigned |
| PropagationSpec.Propagated | board_functions.py:165-168 | `propagate`: the row pass from column 0, which ends in the column and box passes; assigned cells stay assigned |
| PropagationSpec.DealtFacts | board_functions.py:56-83 | single-candidate step: unchanged when the cell is non-zero or the candidate fails the check; otherwise the cell gets its first candidate, which is eliminated from every peer; always a step |
| BoardFunctions.DealWith1PossibleAction | board_functions.py:56-83 | the method returns exactly the specification `Dealt` |
| PropagationSpec.CellStepFacts | board_functions.py:92-107 | one visited cell loses n; the optional cascade is a step; the grid after it, taken with the popped table, is a step too |
| PropagationSpec.RowSweptFacts | board_functions.py:85-109 | the row pass from column i is a step, and by its end (column and box pass included) n is eliminated from every row cell from i, every column cell and every box cell |
| PropagationSpec.ColumnSweptFacts | board_functions.py:111-136 | the column pass from row i is a step, and n is eliminated from every column cell from i and every box cell |
| PropagationSpec.BoxSweptFacts | board_functions.py:138-163 | the box pass, cascades included, is a step |
| PropagationSpec.BoxSweptTable | board_functions.py:146-163 | the table the box pass returns is exactly the incoming one with n popped from the box cells still to visit; cascade tables are dropped |
| PropagationSpec.BoxSweepEliminates | board_functions.py:146-150 | that table has n eliminated from every cell of the box |
| PropagationSpec.PropagatedFacts | board_functions.py:165-168 | propagate only fills 0 cells, each with a value from its own list, never changes a non-zero cell, only drops candidates, and eliminates n from every peer of p |
| BoardFunctions.PropagateHorizontally | board_functions.py:85-109 | the loop that rebinds the grid and table returns exactly `RowSwept` from column 0 |
| BoardFunctions.PropagateVertically | board_functions.py:111-136 | the loop that rebinds the grid and table returns exactly `ColumnSwept` from row 0 |
| BoardFunctions.PropagateBoxWise | board_functions.py:138-163 | the nested loop returns exactly `BoxSwept` from offsets (0, 0) |
| BoardFunctions.PropagateBoxRow | board_functions.py:147-161 | one band row of the box loop: keeps every assigned cell and advances `BoxSwept` by that row |
| BoardFunctions.Propagate | board_functions.py:165-168 | returns exactly `Propagated` |
| BoardState.SudokuBoardState.constructor | sudoku_board_state.py:9-20 | the snapshot holds the cursor, grid and table it is given |
| BoardState.SudokuBoardState.GetBoard | sudoku_board_state.py:22-23 | returns the snapshot's grid |
| BoardState.SudokuBoardState.NextState | sudoku_board_state.py:25-50 | a fresh snapshot whose cursor is pos and whose grid and table are the picks applied to the propagation from (pos, n) after writing n and emptying pos's list; this snapshot is not modified |
| BoardState.Child | sudoku_board_state.py:33-50 | reference definition of the child snapshot's boards: n written at pos, pos's list emptied, `Propagated` from (pos, n), then the picks |
| BoardState.ChildEvolves | sudoku_board_state.py:40-48 | when pos is unassigned, n is one of its candidates and the picks are a step, the child is a step from the parent: it fills only unassigned cells from their own lists and only drops candidates |
| BoardState.NextStatePropagation | sudoku_board_state.py:41-45 | after that propagation pos holds n (when n is non-zero), pos's list is empty, the other given cells keep their values, and n is eliminated from every other peer of pos |
| BoardState.AsWrittenOrder | sudoku_board_state.py:73-85 | the cells `_find_next_pos` examines, in order: the cursor row from the cursor column, then rows cursor-row..7 from column 0; every cell listed is on the board |
| BoardState.FirstZeroIndex | sudoku_board_state.py:75-85 | the number of assigned cells that precede the first unassigned one in the scan |
| BoardState.FirstZero | sudoku_board_state.py:76-85 | a found cell is on the board, among the scanned cells, and unassigned |
| BoardState.FirstZeroNone | sudoku_board_state.py:87 | the scan finds nothing exactly when every scanned cell is assigned |
| BoardState.SudokuBoardState.FindNextPos | sudoku_board_state.py:62-87 | returns the first unassigned cell of `AsWrittenOrder`: the cursor row from the cursor column, then rows cursor-row..7 in full |
| BoardState.AsWrittenCovers | sudoku_board_state.py:73-85 | the as-written scan examines exactly the cursor row from the cursor column, plus every cell of rows cursor-row..7 |
| BoardState.FindsInCursorRow | sudoku_board_state.py:73-77 | when the cursor row has a 0 at or after the cursor column, the leftmost such cell is returned |
| BoardState.FindsLeftOfCursor | sudoku_board_state.py:79-85 | the second scan rescans the cursor row from column 0 and can return a cell left of the cursor |
| BoardState.SudokuBoardState.IsGoalState | sudoku_board_state.py:53-60 | True exactly when every cell of the as-written scan is assigned, that is, exactly when `FindNextPos` returns None |
| BoardState.AsWrittenGoal | sudoku_board_state.py:53-87 | as written, a goal exactly when the cursor row from the cursor column and rows cursor-row..7 have no 0; row 8 is not covered unless the cursor is in it |
| BoardState.SudokuBoardState.PossibleActions | sudoku_board_state.py:89-102 | None exactly when the scan finds nothing; otherwise the cell found and the candidate list stored at it |
| BoardState.AsWrittenMissesLastRow | sudoku_board_state.py:80-85 | with the cursor at (7, 0) and only (8, 0) unassigned, the scan finds nothing |
| BoardState.SudokuBoardState.FindNextPosIntended | sudoku_board_state.py:79-85 | corrected scan: returns the first unassigned cell of `IntendedOrder`, which examines rows cursor-row+1..8 |
| BoardState.IntendedCovers | sudoku_board_state.py:79-85 | the corrected scan examines exactly the cells at or after the cursor in row-major order |
| BoardState.IntendedGoal | sudoku_board_state.py:53-87 | with the corrected scan, a goal exactly when no cell at or after the cursor is unassigned |
| BoardState.SudokuBoardState.IsGoalStateIntended | sudoku_board_state.py:53-60 | the goal test over the corrected scan has that meaning |
| BoardState.IntendedFindsLastRow | sudoku_board_state.py:80-85 | the corrected scan finds (8, 0) in the counterexample above |
| InitialSetup.InitialBoardSetup.constructor | initial_board_setup.py:8-12 | the setup holds the board it is given |
| InitialSetup.InitialBoardSetup.GetChangedBoards | initial_board_setup.py:14-28 | None exactly when some positive cell fails the check; otherwise the initial propagation of the board over the fresh table |
| InitialSetup.InitialBoardSetup.IsBoardValid | initial_board_setup.py:30-45 | True exactly when every positive cell passes `is_valid_pos`; cells that are 0 (or negative) are skipped |
| InitialSetup.BoardValidFlag | initial_board_setup.py:42-43 | with the flag off every board passes; with it on, a board passes exactly when it has no positive cell, because the check meets the cell's own value |
| InitialSetup.InitialBoardSetup.InitPossibleActionsBoard | initial_board_setup.py:47-63 | the table built by appending is exactly `FreshTable` of the board |
| InitialSetup.FreshTable | initial_board_setup.py:54-63 | reference definition of the initial table: `[1, ..., 9]` at each 0 cell and `[]` elsewhere; a 9x9 table |
| InitialSetup.FreshTableCells | initial_board_setup.py:54-63 | a fresh list is non-empty exactly at a 0 cell; it then holds exactly the digits 1..9, each once |
| InitialSetup.InitialBoardSetup.InitialPropagation | initial_board_setup.py:65-88 | returns exactly `InitialSwept` from (0, 0): a row-major scan that propagates every cell that is non-zero in the evolving grid, then applies the picks |
| InitialSetup.InitialSwept | initial_board_setup.py:76-88 | reference definition of `_initial_propagation` from (r, c): row-major over the evolving grid, each non-zero cell propagated with its value and the picks applied after it; 9x9 result when the picks keep the shapes |
| InitialSetup.InitialSweptEvolves | initial_board_setup.py:78-88 | when the picks are a step (`EvolvesAll`): the initial propagation is a step, so it never changes a non-zero cell and only drops candidates |
| InitialSetup.InitialSweptEliminates | initial_board_setup.py:78-88 | when the picks are a step (`EvolvesAll`): every cell that is assigned when the scan starts has its value eliminated from all of its peers' lists by the end |
| InitialSetup.InitialSetupKeeps | initial_board_setup.py:76-88 | when the picks are a step (`EvolvesAll`): over the fresh table, the given cells keep their values and empty lists, and every other cell ends 0 or holds a digit 1..9 |
| InitialSetup.InitialSetupPeers | initial_board_setup.py:78-88 | when the picks are a step (`EvolvesAll`): over the fresh table, no list ends holding the value of a given cell among its peers |

## Left out

- `print_2d_list` (`board_functions.py:170-174`) and the commented-out debug prints are console output. They are not modelled.
- `deal_with_1_picks` is not part of this model: no file of the engine defines it, and the calls to it as written end in an `AttributeError`, which the model does not reproduce. It is a function parameter. The facts that depend on it assume only `PreservesShape` or `EvolvesAll`.
- InitialSetup.InitialBoardSetup.IsBoardValid: the source passes three arguments to the four-parameter `is_valid_pos` (`initial_board_setup.py:43`), which Python rejects with a `TypeError`. The model takes the missing flag as an explicit `check` parameter and does not model the error.
- InitialSetup.InitialBoardSetup.GetChangedBoards: for the same reason it takes the flag as a parameter.
- Python aliasing is not modelled (`np.copy`, `copy.copy`, `copy.deepcopy`, `list.copy`). Every copy is a value copy, so "the caller's board and table are never changed" holds by construction and is not a separate contract.
- The 9x9 shapes are preconditions. The source reads sizes with `len`. `_init_possible_actions_board` takes both dimensions from `len(board[0])`, which makes no difference on a 9x9 board. Non-square boards are not modelled.
- BoardState.SudokuBoardState.FindNextPos: requires the cursor to be on the board. Python's negative indexing for an off-board cursor is not modelled. The same applies to IsGoalState, PossibleActions and NextState.
- Integer width is not modelled: the grid holds unbounded integers. The engine only compares, copies and writes values, so no wrap-around can arise.
- The state-machine view of the depth-first search driver, puzzle loading and the command line are outside the engine. They are not modelled.
- The `try ... except ValueError` control flow is modelled as "pop the first occurrence of n if there is one".

## Findings

| source | as written | input that shows it | evidently intended | confidence | as-written member | corrected member |
|---|---|---|---|---|---|---|
| sudoku_board_state.py:80-85 | the second scan covers `range(len(board) - row - 1)` rows starting at the cursor row: rows cursor-row..7, so row 8 is never examined unless the cursor is in it | cursor (7, 0); a grid whose only 0 is at (8, 0); `_find_next_pos` returns None and `is_goal_state` returns True | examine rows cursor-row+1..8, so that a snapshot is a goal exactly when no cell at or after the cursor is 0 | not executed | BoardState.AsWrittenMissesLastRow | BoardState.IntendedGoal |
