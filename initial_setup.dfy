/** InitialBoardSetup: validate the given cells, build the initial candidate
    table, and propagate every assigned cell in row-major order.

    deal_with_1_picks is not defined by the engine: it is passed in as a
    function of (grid, table). What is proved about the result assumes only
    that it keeps the 9x9 shapes (PreservesShape) or, for the stronger
    facts, that it is itself a step in the sense of Evolves (EvolvesAll). */
module InitialSetup {
  import opened Grid
  import opened Validity
  import opened PropagationSpec
  import opened BoardFunctions

  /** The candidate list of an unassigned cell before any propagation:
      [1, 2, ..., 9]. */
  const Digits: seq<int> := seq(9, k => k + 1)

  /** Every positive cell of b passes is_valid_pos with the given flag. */
  predicate BoardValid(b: Grid, check: bool)
    requires IsGrid(b)
  {
    forall i, j :: 0 <= i < Size && 0 <= j < Size ==> CellValid(b, check, i, j)
  }

  /** Cell (i, j) is 0 or negative, or passes is_valid_pos. */
  predicate CellValid(b: Grid, check: bool, i: int, j: int)
    requires IsGrid(b) && 0 <= i < Size && 0 <= j < Size
  {
    b[i][j] > 0 ==> IsValidPos(b, Pos(i, j), b[i][j], check)
  }

  /** With the flag off every board passes; with it on the check also looks at
      the cell itself, so a board passes exactly when it has no positive cell. */
  lemma {:induction false} BoardValidFlag(b: Grid, check: bool)
    requires IsGrid(b)
    ensures !check ==> BoardValid(b, check)
    ensures check ==> (BoardValid(b, check) <==> forall i, j :: 0 <= i < Size && 0 <= j < Size ==> b[i][j] <= 0)
  {
    if check {
      forall i, j | 0 <= i < Size && 0 <= j < Size && b[i][j] > 0
        ensures !CellValid(b, check, i, j)
      {
        assert Peer(Pos(i, j), i, j);
      }
    }
  }

  /** The initial table: all nine digits where the grid is 0, nothing
      elsewhere. */
  function FreshTable(b: Grid): (t: Table)
    requires IsGrid(b)
    ensures IsTable(t)
  {
    seq(Size, i requires 0 <= i < Size => seq(Size, j requires 0 <= j < Size => if b[i][j] == 0 then Digits else []))
  }

  /** A strictly increasing list holds each value at most once. */
  lemma {:induction false} IncreasingOnce(s: seq<int>, v: int)
    requires forall i, j :: 0 <= i < j < |s| ==> s[i] < s[j]
    ensures multiset(s)[v] <= 1
  {
    if s != [] {
      assert s == [s[0]] + s[1..];
      IncreasingOnce(s[1..], v);
      if s[0] == v {
        assert v !in s[1..];
      }
    }
  }

  /** A cell of the initial table has a candidate exactly when the grid cell
      is 0; its candidates are then the digits 1..9, each once. */
  lemma FreshTableCells(b: Grid, i: int, j: int)
    requires IsGrid(b) && 0 <= i < Size && 0 <= j < Size
    ensures FreshTable(b)[i][j] != [] <==> b[i][j] == 0
    ensures forall v :: v in FreshTable(b)[i][j] <==> b[i][j] == 0 && 1 <= v <= 9
    ensures forall v :: multiset(FreshTable(b)[i][j])[v] <= 1
  {
    if b[i][j] == 0 {
      assert FreshTable(b)[i][j] == Digits;
      DigitsFacts();
    } else {
      assert FreshTable(b)[i][j] == [];
    }
  }

  /** The digits are 1..9, each once. */
  lemma DigitsFacts()
    ensures forall v :: v in Digits <==> 1 <= v <= 9
    ensures forall v :: multiset(Digits)[v] <= 1
  {
    forall v | 1 <= v <= 9 ensures v in Digits {
      assert Digits[v - 1] == v;
    }
    forall v ensures multiset(Digits)[v] <= 1 {
      DigitsOnce(v);
    }
  }

  lemma DigitsOnce(v: int)
    ensures multiset(Digits)[v] <= 1
  {
    IncreasingOnce(Digits, v);
  }

  /** _initial_propagation from cell (r, c) on: every cell that is non-zero in
      the evolving grid when the scan reaches it is propagated with its value,
      and deal_with_1_picks is applied after each such propagation. */
  ghost function InitialSwept(b: Grid, t: Table, picks: Picks, r: int, c: int): (s: Boards)
    requires IsGrid(b) && IsTable(t) && 0 <= r <= Size && 0 <= c <= Size
    requires PreservesShape(picks)
    ensures IsGrid(s.grid) && IsTable(s.table)
    decreases Size - r, Size - c
  {
    if r == Size then Boards(b, t)
    else if c == Size then InitialSwept(b, t, picks, r + 1, 0)
    else if b[r][c] != 0 then
      var s := Propagated(b, t, Pos(r, c), b[r][c]);
      var s' := picks(s.grid, s.table);
      InitialSwept(s'.grid, s'.table, picks, r, c + 1)
    else
      InitialSwept(b, t, picks, r, c + 1)
  }

  /** Cell (i, j) comes at or after (r, c) in row-major order. */
  predicate From(r: int, c: int, i: int, j: int) {
    i > r || (i == r && j >= c)
  }

  /** n has been eliminated, relative to t, from the list of every peer of p. */
  ghost predicate PeersEliminated(t: Table, t': Table, p: Pos, n: int)
    requires IsTable(t) && IsTable(t')
  {
    forall i, j :: 0 <= i < Size && 0 <= j < Size && Peer(p, i, j) ==> Eliminated(t, t', i, j, n)
  }

  /** Eliminations survive a later step. */
  lemma PeersThenEvolves(t: Table, b1: Grid, t1: Table, s: Boards, p: Pos, n: int)
    requires IsTable(t) && IsGrid(b1) && IsTable(t1) && PeersEliminated(t, t1, p, n) && Evolves(b1, t1, s)
    ensures PeersEliminated(t, s.table, p, n)
  {
    forall i, j | 0 <= i < Size && 0 <= j < Size && Peer(p, i, j) ensures Eliminated(t, s.table, i, j, n) {
      EliminatedThenShrunk(t, t1, s.table, i, j, n);
    }
  }

  /** Eliminations after an earlier step hold relative to the tables before it. */
  lemma EvolvesThenPeers(b: Grid, t: Table, s: Boards, t2: Table, p: Pos, n: int)
    requires IsGrid(b) && IsTable(t) && IsTable(t2) && Evolves(b, t, s) && PeersEliminated(s.table, t2, p, n)
    ensures PeersEliminated(t, t2, p, n)
  {
    forall i, j | 0 <= i < Size && 0 <= j < Size && Peer(p, i, j) ensures Eliminated(t, t2, i, j, n) {
      ShrunkThenEliminated(t, s.table, t2, i, j, n);
    }
  }

  /** The propagation of one assigned cell and the picks after it. */
  ghost function Visit(b: Grid, t: Table, picks: Picks, p: Pos): (s: Boards)
    requires IsGrid(b) && IsTable(t) && ValidPos(p) && PreservesShape(picks)
    ensures IsGrid(s.grid) && IsTable(s.table)
  {
    var s := Propagated(b, t, p, b[p.r][p.c]);
    picks(s.grid, s.table)
  }

  /** One visit is a step, and removes p's value from p's peers. */
  lemma VisitFacts(b: Grid, t: Table, picks: Picks, p: Pos)
    requires IsGrid(b) && IsTable(t) && ValidPos(p) && EvolvesAll(picks)
    ensures Evolves(b, t, Visit(b, t, picks, p))
    ensures PeersEliminated(t, Visit(b, t, picks, p).table, p, b[p.r][p.c])
  {
    var s := Propagated(b, t, p, b[p.r][p.c]);
    PropagatedFacts(b, t, p, b[p.r][p.c]);
    var s' := picks(s.grid, s.table);
    assert Evolves(s.grid, s.table, s');
    EvolvesTrans(b, t, s, s');
    PeersThenEvolves(t, s.grid, s.table, s', p, b[p.r][p.c]);
  }

  /** The rest of the scan is a step. */
  lemma {:induction false} InitialSweptEvolves(b: Grid, t: Table, picks: Picks, r: int, c: int)
    requires IsGrid(b) && IsTable(t) && 0 <= r <= Size && 0 <= c <= Size && EvolvesAll(picks)
    ensures Evolves(b, t, InitialSwept(b, t, picks, r, c))
    decreases Size - r, Size - c
  {
    if r == Size {
      EvolvesRefl(b, t);
    } else if c == Size {
      InitialSweptEvolves(b, t, picks, r + 1, 0);
    } else if b[r][c] != 0 {
      var s := Visit(b, t, picks, Pos(r, c));
      VisitFacts(b, t, picks, Pos(r, c));
      InitialSweptEvolves(s.grid, s.table, picks, r, c + 1);
      EvolvesTrans(b, t, s, InitialSwept(s.grid, s.table, picks, r, c + 1));
    } else {
      InitialSweptEvolves(b, t, picks, r, c + 1);
    }
  }

  /** Every cell from (r, c) on that is assigned in b has its value removed
      from all of its peers' lists by the end of the scan. */
  lemma {:induction false} InitialSweptEliminates(b: Grid, t: Table, picks: Picks, r: int, c: int)
    requires IsGrid(b) && IsTable(t) && 0 <= r <= Size && 0 <= c <= Size && EvolvesAll(picks)
    ensures forall i, j :: 0 <= i < Size && 0 <= j < Size && From(r, c, i, j) && b[i][j] != 0 ==>
      PeersEliminated(t, InitialSwept(b, t, picks, r, c).table, Pos(i, j), b[i][j])
    decreases Size - r, Size - c, 1
  {
    if r == Size {
    } else if c == Size {
      RowEndEliminates(b, t, picks, r);
    } else if b[r][c] != 0 {
      VisitEliminates(b, t, picks, r, c);
    } else {
      SkipEliminates(b, t, picks, r, c);
    }
  }

  /** InitialSweptEliminates at the end of row r. */
  lemma {:induction false} RowEndEliminates(b: Grid, t: Table, picks: Picks, r: int)
    requires IsGrid(b) && IsTable(t) && 0 <= r < Size && EvolvesAll(picks)
    ensures forall i, j :: 0 <= i < Size && 0 <= j < Size && From(r, Size, i, j) && b[i][j] != 0 ==>
      PeersEliminated(t, InitialSwept(b, t, picks, r, Size).table, Pos(i, j), b[i][j])
    decreases Size - r, 0, 0
  {
    InitialSweptEliminates(b, t, picks, r + 1, 0);
    forall i, j | 0 <= i < Size && 0 <= j < Size && From(r, Size, i, j) ensures From(r + 1, 0, i, j) {
    }
  }

  /** InitialSweptEliminates at an unassigned cell (r, c). */
  lemma {:induction false} SkipEliminates(b: Grid, t: Table, picks: Picks, r: int, c: int)
    requires IsGrid(b) && IsTable(t) && 0 <= r < Size && 0 <= c < Size && EvolvesAll(picks)
    requires b[r][c] == 0
    ensures forall i, j :: 0 <= i < Size && 0 <= j < Size && From(r, c, i, j) && b[i][j] != 0 ==>
      PeersEliminated(t, InitialSwept(b, t, picks, r, c).table, Pos(i, j), b[i][j])
    decreases Size - r, Size - c, 0
  {
    InitialSweptEliminates(b, t, picks, r, c + 1);
    forall i, j | 0 <= i < Size && 0 <= j < Size && From(r, c, i, j) && b[i][j] != 0 ensures From(r, c + 1, i, j) {
    }
  }

  /** InitialSweptEliminates at an assigned cell (r, c). */
  lemma {:induction false} VisitEliminates(b: Grid, t: Table, picks: Picks, r: int, c: int)
    requires IsGrid(b) && IsTable(t) && 0 <= r < Size && 0 <= c < Size && EvolvesAll(picks)
    requires b[r][c] != 0
    ensures forall i, j :: 0 <= i < Size && 0 <= j < Size && From(r, c, i, j) && b[i][j] != 0 ==>
      PeersEliminated(t, InitialSwept(b, t, picks, r, c).table, Pos(i, j), b[i][j])
    decreases Size - r, Size - c, 0
  {
    var p := Pos(r, c);
    var s := Visit(b, t, picks, p);
    var f := InitialSwept(s.grid, s.table, picks, r, c + 1);
    assert f == InitialSwept(b, t, picks, r, c);
    VisitFacts(b, t, picks, p);
    InitialSweptEvolves(s.grid, s.table, picks, r, c + 1);
    InitialSweptEliminates(s.grid, s.table, picks, r, c + 1);
    forall i, j | 0 <= i < Size && 0 <= j < Size && From(r, c, i, j) && b[i][j] != 0
      ensures PeersEliminated(t, f.table, Pos(i, j), b[i][j])
    {
      if i == r && j == c {
        PeersThenEvolves(t, s.grid, s.table, f, p, b[r][c]);
      } else {
        assert From(r, c + 1, i, j) && s.grid[i][j] == b[i][j];
        EvolvesThenPeers(b, t, s, f.table, Pos(i, j), b[i][j]);
      }
    }
  }

  /** _initial_propagation on the initial table: the given cells keep their
      values and their lists stay empty, and every other cell is left 0 or
      holds a digit 1..9. */
  lemma InitialSetupKeeps(b: Grid, picks: Picks)
    requires IsGrid(b) && EvolvesAll(picks)
    ensures var s := InitialSwept(b, FreshTable(b), picks, 0, 0);
      (forall i, j :: 0 <= i < Size && 0 <= j < Size && b[i][j] != 0 ==>
        s.grid[i][j] == b[i][j] && s.table[i][j] == []) &&
      (forall i, j :: 0 <= i < Size && 0 <= j < Size && b[i][j] == 0 ==>
        s.grid[i][j] == 0 || 1 <= s.grid[i][j] <= 9)
  {
    var t := FreshTable(b);
    var s := InitialSwept(b, t, picks, 0, 0);
    InitialSweptEvolves(b, t, picks, 0, 0);
    forall i, j | 0 <= i < Size && 0 <= j < Size
      ensures b[i][j] != 0 ==> s.table[i][j] == []
      ensures b[i][j] == 0 ==> s.grid[i][j] == 0 || 1 <= s.grid[i][j] <= 9
    {
      FreshTableCells(b, i, j);
      if b[i][j] != 0 {
        assert |multiset(s.table[i][j])| == 0;
      }
    }
  }

  /** After _initial_propagation on the initial table, no candidate list holds
      the value of a given cell among its peers. */
  lemma InitialSetupPeers(b: Grid, picks: Picks)
    requires IsGrid(b) && EvolvesAll(picks)
    ensures var s := InitialSwept(b, FreshTable(b), picks, 0, 0);
      forall i', j', i, j ::
        0 <= i' < Size && 0 <= j' < Size && b[i'][j'] != 0 &&
        0 <= i < Size && 0 <= j < Size && Peer(Pos(i', j'), i, j) ==>
          b[i'][j'] !in s.table[i][j]
  {
    var t := FreshTable(b);
    var s := InitialSwept(b, t, picks, 0, 0);
    InitialSweptEliminates(b, t, picks, 0, 0);
    forall i', j', i, j | 0 <= i' < Size && 0 <= j' < Size && b[i'][j'] != 0 &&
      0 <= i < Size && 0 <= j < Size && Peer(Pos(i', j'), i, j)
      ensures b[i'][j'] !in s.table[i][j]
    {
      assert From(0, 0, i', j');
      assert Eliminated(t, s.table, i, j, b[i'][j']);
      FreshTableCells(b, i, j);
      assert multiset(s.table[i][j])[b[i'][j']] == 0;
    }
  }

  class InitialBoardSetup {
    var board: Grid

    constructor (board: Grid)
      ensures this.board == board
    {
      this.board := board;
    }

    /** get_changed_boards: None when the given cells do not pass the check,
        otherwise the initial propagation of the board over a fresh table. */
    method GetChangedBoards(check: bool, picks: Picks) returns (r: Option<Boards>)
      requires IsGrid(board) && PreservesShape(picks)
      ensures r.None? <==> !BoardValid(board, check)
      ensures r.Some? ==> r.value == InitialSwept(board, FreshTable(board), picks, 0, 0)
    {
      var valid := IsBoardValid(check);
      if !valid {
        return None;
      }
      var possibleActionsBoard := InitPossibleActionsBoard();
      var newBoard, newPossibleActionsBoard := InitialPropagation(board, possibleActionsBoard, picks);
      return Some(Boards(newBoard, newPossibleActionsBoard));
    }

    /** _is_board_valid: every positive cell passes is_valid_pos; zero cells
        are skipped and the scan stops at the first failure. */
    method IsBoardValid(check: bool) returns (ok: bool)
      requires IsGrid(board)
      ensures ok == BoardValid(board, check)
    {
      for row := 0 to |board|
        invariant forall i, j :: 0 <= i < row && 0 <= j < Size ==> CellValid(board, check, i, j)
      {
        for column := 0 to |board[0]|
          invariant forall i, j :: 0 <= i < row && 0 <= j < Size ==> CellValid(board, check, i, j)
          invariant forall j :: 0 <= j < column ==> CellValid(board, check, row, j)
        {
          var cellValue := board[row][column];
          if cellValue > 0 {
            if !IsValidPos(board, Pos(row, column), cellValue, check) {
              assert !CellValid(board, check, row, column);
              return false;
            }
          }
        }
      }
      return true;
    }

    /** _init_possible_actions_board: the table is built row by row by
        appending, both dimensions taken from the width of the board. */
    method InitPossibleActionsBoard() returns (possibleActionsBoard: Table)
      requires IsGrid(board)
      ensures possibleActionsBoard == FreshTable(board)
    {
      possibleActionsBoard := [];
      for row := 0 to |board[0]|
        invariant possibleActionsBoard == FreshTable(board)[..row]
      {
        var columnList: seq<seq<int>> := [];
        for column := 0 to |board[0]|
          invariant columnList == FreshTable(board)[row][..column]
        {
          if board[row][column] == 0 {
            columnList := columnList + [Digits];
          } else {
            columnList := columnList + [[]];
          }
        }
        assert columnList == FreshTable(board)[row];
        assert FreshTable(board)[..row + 1] == FreshTable(board)[..row] + [columnList];
        possibleActionsBoard := possibleActionsBoard + [columnList];
      }
      assert FreshTable(board)[..Size] == FreshTable(board);
    }

    /** _initial_propagation: the row-major scan over the evolving grid. */
    method InitialPropagation(board: Grid, possibleActionsBoard: Table, picks: Picks)
      returns (newBoard: Grid, newPossibleActionsBoard: Table)
      requires IsGrid(board) && IsTable(possibleActionsBoard) && PreservesShape(picks)
      ensures Boards(newBoard, newPossibleActionsBoard) == InitialSwept(board, possibleActionsBoard, picks, 0, 0)
    {
      newBoard, newPossibleActionsBoard := board, possibleActionsBoard;
      for row := 0 to |newBoard|
        invariant IsGrid(newBoard) && IsTable(newPossibleActionsBoard)
        invariant InitialSwept(newBoard, newPossibleActionsBoard, picks, row, 0) ==
          InitialSwept(board, possibleActionsBoard, picks, 0, 0)
      {
        for column := 0 to |newBoard[0]|
          invariant IsGrid(newBoard) && IsTable(newPossibleActionsBoard)
          invariant InitialSwept(newBoard, newPossibleActionsBoard, picks, row, column) ==
            InitialSwept(board, possibleActionsBoard, picks, 0, 0)
        {
          var tempValue := newBoard[row][column];
          if tempValue != 0 {
            newBoard, newPossibleActionsBoard := Propagate(newBoard, newPossibleActionsBoard, Pos(row, column), tempValue);
            var picked := picks(newBoard, newPossibleActionsBoard);
            newBoard, newPossibleActionsBoard := picked.grid, picked.table;
          }
        }
      }
    }
  }
}
