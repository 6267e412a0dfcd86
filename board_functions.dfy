/** BoardFunctions' propagation as the source runs it: each step starts from
    its own copies of the grid and the table, pops candidates in a loop, and
    hands the pair on to the next step. Each method returns exactly what the
    matching function of PropagationSpec describes. */
module BoardFunctions {
  import opened Grid
  import opened Validity
  import opened PropagationSpec

  /** _deal_with_1_possible_action: assign the cell's only candidate if the
      cell is still empty and the candidate passes the check, then propagate. */
  method DealWith1PossibleAction(board: Grid, possibleActionsBoard: Table, pos: Pos)
    returns (newBoard: Grid, newPossibleActionsBoard: Table)
    requires IsGrid(board) && IsTable(possibleActionsBoard) && ValidPos(pos)
    requires possibleActionsBoard[pos.r][pos.c] != []
    ensures Boards(newBoard, newPossibleActionsBoard) == Dealt(board, possibleActionsBoard, pos)
    decreases Zeros(board), 0, 0, 0
  {
    newBoard, newPossibleActionsBoard := board, possibleActionsBoard;
    var onlyRemainingOption := newPossibleActionsBoard[pos.r][pos.c][0];
    if newBoard[pos.r][pos.c] != 0 {
      return;
    }
    if IsValidPos(newBoard, pos, onlyRemainingOption, true) {
      ValidDiffersFromCell(newBoard, pos, onlyRemainingOption);
      AssignShrinksZeros(newBoard, pos, onlyRemainingOption);
      newBoard := Assign(newBoard, pos, onlyRemainingOption);
      newBoard, newPossibleActionsBoard := Propagate(newBoard, newPossibleActionsBoard, pos, onlyRemainingOption);
    }
  }

  /** _propagate_horizontally: remove n from every list of pos's row, settling
      single-candidate cells as they appear, then run the column pass. */
  method PropagateHorizontally(board: Grid, possibleActionsBoard: Table, pos: Pos, n: int)
    returns (newBoard: Grid, newPossibleActionsBoard: Table)
    requires IsGrid(board) && IsTable(possibleActionsBoard) && ValidPos(pos)
    ensures Boards(newBoard, newPossibleActionsBoard) == RowSwept(board, possibleActionsBoard, pos, n, 0)
    decreases Zeros(board), 4, 0, 0
  {
    newBoard, newPossibleActionsBoard := board, possibleActionsBoard;
    for i := 0 to Size
      invariant IsGrid(newBoard) && IsTable(newPossibleActionsBoard)
      invariant KeepsAssigned(board, newBoard)
      invariant RowSwept(newBoard, newPossibleActionsBoard, pos, n, i) == RowSwept(board, possibleActionsBoard, pos, n, 0)
    {
      ghost var before := Boards(newBoard, newPossibleActionsBoard);
      newPossibleActionsBoard := Removed(newPossibleActionsBoard, pos.r, i, n);
      if |newPossibleActionsBoard[pos.r][i]| == 1 {
        KeepsAssignedZeros(board, newBoard);
        newBoard, newPossibleActionsBoard := DealWith1PossibleAction(newBoard, newPossibleActionsBoard, Pos(pos.r, i));
      }
      assert Boards(newBoard, newPossibleActionsBoard) == CellStep(before.grid, before.table, Pos(pos.r, i), n);
      RowSweptUnfold(before.grid, before.table, pos, n, i);
    }
    KeepsAssignedZeros(board, newBoard);
    newBoard, newPossibleActionsBoard := PropagateVertically(newBoard, newPossibleActionsBoard, pos, n);
  }

  /** _propagate_vertically: the same over pos's column, then the box pass. */
  method PropagateVertically(board: Grid, possibleActionsBoard: Table, pos: Pos, n: int)
    returns (newBoard: Grid, newPossibleActionsBoard: Table)
    requires IsGrid(board) && IsTable(possibleActionsBoard) && ValidPos(pos)
    ensures Boards(newBoard, newPossibleActionsBoard) == ColumnSwept(board, possibleActionsBoard, pos, n, 0)
    decreases Zeros(board), 3, 0, 0
  {
    newBoard, newPossibleActionsBoard := board, possibleActionsBoard;
    for i := 0 to Size
      invariant IsGrid(newBoard) && IsTable(newPossibleActionsBoard)
      invariant KeepsAssigned(board, newBoard)
      invariant ColumnSwept(newBoard, newPossibleActionsBoard, pos, n, i) == ColumnSwept(board, possibleActionsBoard, pos, n, 0)
    {
      ghost var before := Boards(newBoard, newPossibleActionsBoard);
      newPossibleActionsBoard := Removed(newPossibleActionsBoard, i, pos.c, n);
      if |newPossibleActionsBoard[i][pos.c]| == 1 {
        KeepsAssignedZeros(board, newBoard);
        newBoard, newPossibleActionsBoard := DealWith1PossibleAction(newBoard, newPossibleActionsBoard, Pos(i, pos.c));
      }
      assert Boards(newBoard, newPossibleActionsBoard) == CellStep(before.grid, before.table, Pos(i, pos.c), n);
      ColumnSweptUnfold(before.grid, before.table, pos, n, i);
    }
    KeepsAssignedZeros(board, newBoard);
    newBoard, newPossibleActionsBoard := PropagateBoxWise(newBoard, newPossibleActionsBoard, pos, n);
  }

  /** _propagate_box_wise: the same over pos's box, one row of its band at a
      time (PropagateBoxRow is the inner loop). */
  method PropagateBoxWise(board: Grid, possibleActionsBoard: Table, pos: Pos, n: int)
    returns (newBoard: Grid, newPossibleActionsBoard: Table)
    requires IsGrid(board) && IsTable(possibleActionsBoard) && ValidPos(pos)
    ensures Boards(newBoard, newPossibleActionsBoard) == BoxSwept(board, possibleActionsBoard, pos, n, 0, 0)
    decreases Zeros(board), 2, 1, 0
  {
    newBoard, newPossibleActionsBoard := board, possibleActionsBoard;
    var rangeR := FindBoxRange(pos.r);
    for ri := 0 to BoxSize
      invariant IsGrid(newBoard) && IsTable(newPossibleActionsBoard)
      invariant KeepsAssigned(board, newBoard)
      invariant BoxSwept(newBoard, newPossibleActionsBoard, pos, n, ri, 0) == BoxSwept(board, possibleActionsBoard, pos, n, 0, 0)
    {
      KeepsAssignedZeros(board, newBoard);
      FindBoxRangeAt(pos.r, ri);
      newBoard, newPossibleActionsBoard := PropagateBoxRow(newBoard, newPossibleActionsBoard, pos, n, rangeR[ri], ri);
    }
  }

  /** The inner loop of _propagate_box_wise over the box cells of band row ri;
      a cascade's table is bound to another name and never used again. */
  method PropagateBoxRow(board: Grid, possibleActionsBoard: Table, pos: Pos, n: int, row: int, ri: int)
    returns (newBoard: Grid, newPossibleActionsBoard: Table)
    requires IsGrid(board) && IsTable(possibleActionsBoard) && ValidPos(pos)
    requires 0 <= ri < BoxSize && row == pos.r / 3 * 3 + ri
    ensures IsGrid(newBoard) && IsTable(newPossibleActionsBoard) && KeepsAssigned(board, newBoard)
    ensures BoxSwept(newBoard, newPossibleActionsBoard, pos, n, ri + 1, 0) == BoxSwept(board, possibleActionsBoard, pos, n, ri, 0)
    decreases Zeros(board), 2, 0, 0
  {
    newBoard, newPossibleActionsBoard := board, possibleActionsBoard;
    var discarded := possibleActionsBoard;
    var rangeC := FindBoxRange(pos.c);
    for ci := 0 to BoxSize
      invariant IsGrid(newBoard) && IsTable(newPossibleActionsBoard)
      invariant KeepsAssigned(board, newBoard)
      invariant BoxSwept(newBoard, newPossibleActionsBoard, pos, n, ri, ci) == BoxSwept(board, possibleActionsBoard, pos, n, ri, 0)
    {
      var column := rangeC[ci];
      FindBoxRangeAt(pos.c, ci);
      ghost var before := Boards(newBoard, newPossibleActionsBoard);
      assert Pos(row, column) == BoxCell(pos, ri, ci);
      newPossibleActionsBoard := Removed(newPossibleActionsBoard, row, column, n);
      if |newPossibleActionsBoard[row][column]| == 1 {
        KeepsAssignedZeros(board, newBoard);
        newBoard, discarded := DealWith1PossibleAction(newBoard, newPossibleActionsBoard, Pos(row, column));
      }
      assert newBoard == CellStep(before.grid, before.table, Pos(row, column), n).grid;
      BoxSweptUnfold(before.grid, before.table, pos, n, ri, ci);
    }
  }

  /** propagate: start with the row pass. */
  method Propagate(board: Grid, possibleActionsBoard: Table, pos: Pos, n: int)
    returns (newBoard: Grid, newPossibleActionsBoard: Table)
    requires IsGrid(board) && IsTable(possibleActionsBoard) && ValidPos(pos)
    ensures Boards(newBoard, newPossibleActionsBoard) == Propagated(board, possibleActionsBoard, pos, n)
    decreases Zeros(board), 5, 0, 0
  {
    newBoard, newPossibleActionsBoard := PropagateHorizontally(board, possibleActionsBoard, pos, n);
  }
}
