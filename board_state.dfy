/** SudokuBoardState: a snapshot of the search (cursor, grid, candidate
    table), the child snapshot that assigning a value produces, and the scan
    for the next unassigned cell.

    A scan is specified by the sequence of cells it examines, in order, and
    the first unassigned cell of that sequence. */
module BoardState {
  import opened Grid
  import opened Validity
  import opened PropagationSpec
  import opened BoardFunctions

  predicate AllValid(s: seq<Pos>) {
    forall k :: 0 <= k < |s| ==> ValidPos(s[k])
  }

  /** Cells (r, c), (r, c + 1), ..., (r, 8). */
  function RowFrom(r: int, c: int): (s: seq<Pos>)
    requires 0 <= r < Size && 0 <= c <= Size
    ensures |s| == Size - c && AllValid(s)
    ensures forall k :: 0 <= k < |s| ==> s[k] == Pos(r, c + k)
  {
    seq(Size - c, k => Pos(r, c + k))
  }

  /** Whole rows lo, ..., hi - 1, each from column 0, in row-major order. */
  function Rows(lo: int, hi: int): (s: seq<Pos>)
    requires 0 <= lo && hi <= Size
    ensures AllValid(s)
    decreases hi - lo
  {
    if hi <= lo then [] else Rows(lo, hi - 1) + RowFrom(hi - 1, 0)
  }

  /** The number of cells of s examined before the first unassigned one, or
      |s| when every cell of s is assigned. */
  function FirstZeroIndex(b: Grid, s: seq<Pos>): (k: nat)
    requires IsGrid(b) && AllValid(s)
    ensures k <= |s|
    ensures k < |s| ==> b[s[k].r][s[k].c] == 0
    ensures forall k' :: 0 <= k' < k ==> b[s[k'].r][s[k'].c] != 0
  {
    if s == [] then 0
    else if b[s[0].r][s[0].c] == 0 then 0
    else 1 + FirstZeroIndex(b, s[1..])
  }

  /** The first unassigned cell of s, if any. */
  function FirstZero(b: Grid, s: seq<Pos>): (r: Option<Pos>)
    requires IsGrid(b) && AllValid(s)
    ensures r.Some? ==> r.value in s && ValidPos(r.value) && b[r.value.r][r.value.c] == 0
  {
    var k := FirstZeroIndex(b, s);
    if k < |s| then Some(s[k]) else None
  }

  /** The scan finds nothing exactly when every cell of s is assigned. */
  lemma FirstZeroNone(b: Grid, s: seq<Pos>)
    requires IsGrid(b) && AllValid(s)
    ensures FirstZero(b, s).None? <==> forall k :: 0 <= k < |s| ==> b[s[k].r][s[k].c] != 0
  {
  }

  /** A cell that is unassigned, with every cell before it assigned, is the one
      the scan finds. */
  lemma FirstZeroAt(b: Grid, s: seq<Pos>, k: int)
    requires IsGrid(b) && AllValid(s) && 0 <= k < |s| && b[s[k].r][s[k].c] == 0
    requires forall k' :: 0 <= k' < k ==> b[s[k'].r][s[k'].c] != 0
    ensures FirstZero(b, s) == Some(s[k])
  {
    var i := FirstZeroIndex(b, s);
    assert i == k;
  }

  /** Scanning s then u finds what scanning s finds, or else what scanning u
      finds. */
  lemma {:induction false} FirstZeroAppend(b: Grid, s: seq<Pos>, u: seq<Pos>)
    requires IsGrid(b) && AllValid(s) && AllValid(u)
    ensures AllValid(s + u)
    ensures FirstZero(b, s + u) == if FirstZero(b, s).Some? then FirstZero(b, s) else FirstZero(b, u)
  {
    assert forall k :: 0 <= k < |s| ==> (s + u)[k] == s[k];
    assert forall k :: 0 <= k < |u| ==> (s + u)[|s| + k] == u[k];
    var i := FirstZeroIndex(b, s);
    if i < |s| {
      FirstZeroAt(b, s + u, i);
    } else {
      var j := FirstZeroIndex(b, u);
      if j < |u| {
        FirstZeroAt(b, s + u, |s| + j);
      }
    }
  }

  /** Rows lo..hi - 1 are rows lo..mid - 1 followed by rows mid..hi - 1. */
  lemma {:induction false} RowsSplit(lo: int, mid: int, hi: int)
    requires 0 <= lo <= mid <= hi <= Size
    ensures Rows(lo, hi) == Rows(lo, mid) + Rows(mid, hi)
    decreases hi
  {
    if hi == mid {
      assert Rows(mid, hi) == [];
    } else {
      RowsSplit(lo, mid, hi - 1);
    }
  }

  /** The cells of rows lo..hi - 1. */
  lemma {:induction false} RowsMembers(lo: int, hi: int, q: Pos)
    requires 0 <= lo && hi <= Size
    ensures q in Rows(lo, hi) <==> ValidPos(q) && lo <= q.r < hi
    decreases hi - lo
  {
    if lo < hi {
      RowsMembers(lo, hi - 1, q);
      if q.r == hi - 1 && 0 <= q.c < Size {
        assert RowFrom(hi - 1, 0)[q.c] == q;
      }
    }
  }

  /** The cells _find_next_pos examines, in order: the cursor row from the
      cursor column on, then rows cursor-row..7 from column 0 (the range of
      the second scan starts at the cursor row and has 8 - cursor-row rows). */
  function AsWrittenOrder(p: Pos): (s: seq<Pos>)
    requires ValidPos(p)
    ensures AllValid(s)
  {
    RowFrom(p.r, p.c) + Rows(p.r, Size - 1)
  }

  /** The cells a scan for the next unassigned cell after the cursor should
      examine: the cursor row from the cursor column on, then every later row. */
  function IntendedOrder(p: Pos): (s: seq<Pos>)
    requires ValidPos(p)
    ensures AllValid(s)
  {
    RowFrom(p.r, p.c) + Rows(p.r + 1, Size)
  }

  /** The first scan has found nothing so far, the second has examined rows
      lo..r - 1 and finds an unassigned cell in row r at column c. */
  lemma ScanHit(b: Grid, first: seq<Pos>, lo: int, hi: int, r: int, c: int)
    requires IsGrid(b) && AllValid(first) && 0 <= lo <= r < hi <= Size && 0 <= c < Size
    requires FirstZero(b, first) == None && FirstZero(b, Rows(lo, r)) == None
    requires b[r][c] == 0 && forall k :: 0 <= k < c ==> b[r][k] != 0
    ensures FirstZero(b, first + Rows(lo, hi)) == Some(Pos(r, c))
  {
    RowHit(b, lo, r, c);
    RowsSplit(lo, r + 1, hi);
    FirstZeroAppend(b, Rows(lo, r + 1), Rows(r + 1, hi));
    FirstZeroAppend(b, first, Rows(lo, hi));
  }

  /** The second scan finds an unassigned cell in row r at column c. */
  lemma RowHit(b: Grid, lo: int, r: int, c: int)
    requires IsGrid(b) && 0 <= lo <= r < Size && 0 <= c < Size
    requires FirstZero(b, Rows(lo, r)) == None
    requires b[r][c] == 0 && forall k :: 0 <= k < c ==> b[r][k] != 0
    ensures FirstZero(b, Rows(lo, r + 1)) == Some(Pos(r, c))
  {
    var row := RowFrom(r, 0);
    assert row[c] == Pos(r, c);
    FirstZeroAt(b, row, c);
    assert Rows(lo, r + 1) == Rows(lo, r) + row;
    FirstZeroAppend(b, Rows(lo, r), row);
  }

  /** Row r has no unassigned cell: the second scan moves on to row r + 1. */
  lemma ScanMiss(b: Grid, lo: int, r: int)
    requires IsGrid(b) && 0 <= lo <= r < Size
    requires FirstZero(b, Rows(lo, r)) == None && forall k :: 0 <= k < Size ==> b[r][k] != 0
    ensures FirstZero(b, Rows(lo, r + 1)) == None
  {
    assert Rows(lo, r + 1) == Rows(lo, r) + RowFrom(r, 0);
    FirstZeroNone(b, RowFrom(r, 0));
    FirstZeroAppend(b, Rows(lo, r), RowFrom(r, 0));
  }

  /** The second scan has examined rows lo..hi - 1 without finding anything. */
  lemma ScanNone(b: Grid, first: seq<Pos>, lo: int, hi: int)
    requires IsGrid(b) && AllValid(first) && 0 <= lo && hi <= Size
    requires FirstZero(b, first) == None && FirstZero(b, Rows(lo, hi)) == None
    ensures FirstZero(b, first + Rows(lo, hi)) == None
  {
    FirstZeroAppend(b, first, Rows(lo, hi));
  }

  /** The first scan finds an unassigned cell at column column + c. */
  lemma FirstScanHit(b: Grid, p: Pos, u: seq<Pos>, c: int)
    requires IsGrid(b) && ValidPos(p) && AllValid(u) && p.c <= c < Size
    requires b[p.r][c] == 0 && forall k :: p.c <= k < c ==> b[p.r][k] != 0
    ensures FirstZero(b, RowFrom(p.r, p.c) + u) == Some(Pos(p.r, c))
  {
    var row := RowFrom(p.r, p.c);
    assert row[c - p.c] == Pos(p.r, c);
    FirstZeroAt(b, row, c - p.c);
    FirstZeroAppend(b, row, u);
  }

  /** The child of (b, t) for assigning n at pos: n written at pos, pos's list
      emptied, propagation from (pos, n), then deal_with_1_picks. */
  ghost function Child(b: Grid, t: Table, pos: Pos, n: int, picks: Picks): (r: Boards)
    requires IsGrid(b) && IsTable(t) && ValidPos(pos)
  {
    var s := Propagated(Assign(b, pos, n), SetCandidates(t, pos.r, pos.c, []), pos, n);
    picks(s.grid, s.table)
  }

  /** When pos is unassigned, n is one of its candidates and deal_with_1_picks
      is itself a step, the child is a step from (b, t): it only fills
      unassigned cells from their own lists and only drops candidates. */
  lemma ChildEvolves(b: Grid, t: Table, pos: Pos, n: int, picks: Picks)
    requires IsGrid(b) && IsTable(t) && ValidPos(pos) && EvolvesAll(picks)
    requires b[pos.r][pos.c] == 0 && n in t[pos.r][pos.c]
    ensures Evolves(b, t, Child(b, t, pos, n, picks))
  {
    var b1, t1 := Assign(b, pos, n), SetCandidates(t, pos.r, pos.c, []);
    assert Evolves(b, t, Boards(b1, t1));
    var s := Propagated(b1, t1, pos, n);
    PropagatedFacts(b1, t1, pos, n);
    EvolvesTrans(b, t, Boards(b1, t1), s);
    var s' := picks(s.grid, s.table);
    assert Evolves(s.grid, s.table, s');
    EvolvesTrans(b, t, s, s');
  }

  /** What the propagation inside next_state does: the assigned value stays
      (when it is a digit), every other given cell keeps its value, pos has no
      candidates left, and n has been removed from the list of every other
      cell sharing pos's row, column or box. */
  lemma NextStatePropagation(b: Grid, t: Table, pos: Pos, n: int)
    requires IsGrid(b) && IsTable(t) && ValidPos(pos)
    ensures var s := Propagated(Assign(b, pos, n), SetCandidates(t, pos.r, pos.c, []), pos, n);
      IsGrid(s.grid) && IsTable(s.table) &&
      (n != 0 ==> s.grid[pos.r][pos.c] == n) &&
      s.table[pos.r][pos.c] == [] &&
      (forall i, j :: 0 <= i < Size && 0 <= j < Size && (i != pos.r || j != pos.c) && b[i][j] != 0 ==>
        s.grid[i][j] == b[i][j]) &&
      (forall i, j :: 0 <= i < Size && 0 <= j < Size && (i != pos.r || j != pos.c) && Peer(pos, i, j) ==>
        Eliminated(t, s.table, i, j, n))
  {
    var b1, t1 := Assign(b, pos, n), SetCandidates(t, pos.r, pos.c, []);
    var s := Propagated(b1, t1, pos, n);
    PropagatedFacts(b1, t1, pos, n);
    assert multiset(s.table[pos.r][pos.c]) <= multiset(t1[pos.r][pos.c]);
    assert |multiset(s.table[pos.r][pos.c])| == 0;
  }

  class SudokuBoardState {
    var currentPos: Pos
    var board: Grid
    var possibleActionsBoard: Table

    /** Stores the cursor, the grid and the table as given. */
    constructor (currentPos: Pos, board: Grid, possibleActionsBoard: Table)
      ensures this.currentPos == currentPos && this.board == board
      ensures this.possibleActionsBoard == possibleActionsBoard
    {
      this.currentPos := currentPos;
      this.board := board;
      this.possibleActionsBoard := possibleActionsBoard;
    }

    method GetBoard() returns (b: Grid)
      ensures b == board
    {
      b := board;
    }

    /** next_state: a new snapshot whose cursor is pos, built from copies, so
        this snapshot is left as it was. */
    method NextState(pos: Pos, n: int, picks: Picks) returns (s: SudokuBoardState)
      requires IsGrid(board) && IsTable(possibleActionsBoard) && ValidPos(pos)
      ensures fresh(s) && s.currentPos == pos
      ensures Boards(s.board, s.possibleActionsBoard) == Child(board, possibleActionsBoard, pos, n, picks)
    {
      var row, column := pos.r, pos.c;
      var newBoard := board;
      var newPossibleActionsBoard := possibleActionsBoard;
      newBoard := newBoard[row := newBoard[row][column := n]];
      newPossibleActionsBoard := newPossibleActionsBoard[row := newPossibleActionsBoard[row][column := []]];
      assert newBoard == Assign(board, pos, n);
      assert newPossibleActionsBoard == SetCandidates(possibleActionsBoard, row, column, []);
      newBoard, newPossibleActionsBoard := Propagate(newBoard, newPossibleActionsBoard, pos, n);
      var picked := picks(newBoard, newPossibleActionsBoard);
      s := new SudokuBoardState(pos, picked.grid, picked.table);
    }

    /** is_goal_state: no unassigned cell is found by the scan. */
    method IsGoalState() returns (g: bool)
      requires IsGrid(board) && ValidPos(currentPos)
      ensures g <==> forall q :: q in AsWrittenOrder(currentPos) ==> board[q.r][q.c] != 0
    {
      var next := FindNextPos();
      g := next == None;
      FirstZeroNone(board, AsWrittenOrder(currentPos));
    }

    /** _find_next_pos as written: the first unassigned cell among the cursor
        row from the cursor column, then rows cursor-row..7. */
    method FindNextPos() returns (r: Option<Pos>)
      requires IsGrid(board) && ValidPos(currentPos)
      ensures r == FirstZero(board, AsWrittenOrder(currentPos))
    {
      var row, column := currentPos.r, currentPos.c;
      var howManyColumnsLeft := |board[0]| - column;
      for c := 0 to howManyColumnsLeft
        invariant forall k :: column <= k < column + c ==> board[row][k] != 0
      {
        if board[row][c + column] == 0 {
          FirstScanHit(board, currentPos, Rows(row, Size - 1), c + column);
          return Some(Pos(row, c + column));
        }
      }
      FirstZeroNone(board, RowFrom(row, column));
      var howManyRowsLeft := |board| - row - 1;
      if howManyRowsLeft > 0 {
        for r := 0 to howManyRowsLeft
          invariant FirstZero(board, Rows(row, row + r)) == None
        {
          ghost var current := r + row;
          for c := 0 to |board[0]|
            invariant forall k :: 0 <= k < c ==> board[current][k] != 0
          {
            if board[r + row][c] == 0 {
              ScanHit(board, RowFrom(row, column), row, Size - 1, r + row, c);
              return Some(Pos(r + row, c));
            }
          }
          ScanMiss(board, row, row + r);
        }
      }
      ScanNone(board, RowFrom(row, column), row, Size - 1);
      return None;
    }

    /** The scan over the cursor row from the cursor column, then the rows
        after the cursor row. */
    method FindNextPosIntended() returns (r: Option<Pos>)
      requires IsGrid(board) && ValidPos(currentPos)
      ensures r == FirstZero(board, IntendedOrder(currentPos))
    {
      var row, column := currentPos.r, currentPos.c;
      for c := 0 to Size - column
        invariant forall k :: column <= k < column + c ==> board[row][k] != 0
      {
        if board[row][c + column] == 0 {
          FirstScanHit(board, currentPos, Rows(row + 1, Size), c + column);
          return Some(Pos(row, c + column));
        }
      }
      FirstZeroNone(board, RowFrom(row, column));
      for r := row + 1 to Size
        invariant FirstZero(board, Rows(row + 1, r)) == None
      {
        for c := 0 to Size
          invariant forall k :: 0 <= k < c ==> board[r][k] != 0
        {
          if board[r][c] == 0 {
            ScanHit(board, RowFrom(row, column), row + 1, Size, r, c);
            return Some(Pos(r, c));
          }
        }
        ScanMiss(board, row + 1, r);
      }
      ScanNone(board, RowFrom(row, column), row + 1, Size);
      return None;
    }

    /** The goal test over the intended scan: no cell at or after the cursor
        is unassigned. */
    method IsGoalStateIntended() returns (g: bool)
      requires IsGrid(board) && ValidPos(currentPos)
      ensures g <==> forall i, j ::
        0 <= i < Size && 0 <= j < Size && ((i == currentPos.r && j >= currentPos.c) || i > currentPos.r) ==>
          board[i][j] != 0
    {
      var next := FindNextPosIntended();
      g := next == None;
      IntendedGoal(board, currentPos);
    }

    /** possible_actions: nothing when the scan finds no cell, otherwise the
        cell found and the candidate list stored for it. */
    method PossibleActions() returns (a: Option<(Pos, seq<int>)>)
      requires IsGrid(board) && IsTable(possibleActionsBoard) && ValidPos(currentPos)
      ensures a.None? <==> FirstZero(board, AsWrittenOrder(currentPos)).None?
      ensures a.Some? ==>
        a.value.0 == FirstZero(board, AsWrittenOrder(currentPos)).value &&
        a.value.1 == possibleActionsBoard[a.value.0.r][a.value.0.c]
    {
      var nextPos := FindNextPos();
      if nextPos == None {
        return None;
      }
      var r, c := nextPos.value.r, nextPos.value.c;
      return Some((Pos(r, c), possibleActionsBoard[r][c]));
    }
  }

  /** The cells the as-written scan examines: the cursor row from the cursor
      column on, and rows cursor-row..7 in full; so row 8 only when the
      cursor is in it. */
  lemma AsWrittenCovers(p: Pos, q: Pos)
    requires ValidPos(p)
    ensures q in AsWrittenOrder(p) <==>
      ValidPos(q) && ((q.r == p.r && q.c >= p.c) || p.r <= q.r < Size - 1)
  {
    RowsMembers(p.r, Size - 1, q);
    if q.r == p.r && p.c <= q.c < Size {
      assert RowFrom(p.r, p.c)[q.c - p.c] == q;
    }
  }

  /** The cells the intended scan examines are exactly those at or after the
      cursor in row-major order. */
  lemma IntendedCovers(p: Pos, q: Pos)
    requires ValidPos(p)
    ensures q in IntendedOrder(p) <==> ValidPos(q) && ((q.r == p.r && q.c >= p.c) || q.r > p.r)
  {
    RowsMembers(p.r + 1, Size, q);
    if q.r == p.r && p.c <= q.c < Size {
      assert RowFrom(p.r, p.c)[q.c - p.c] == q;
    }
  }

  /** As written, a snapshot is a goal exactly when the cursor row from the
      cursor column on and rows cursor-row..7 are fully assigned; row 8 is
      not looked at unless the cursor is in it. */
  lemma AsWrittenGoal(b: Grid, p: Pos)
    requires IsGrid(b) && ValidPos(p)
    ensures FirstZero(b, AsWrittenOrder(p)).None? <==>
      forall i, j :: 0 <= i < Size && 0 <= j < Size && ((i == p.r && j >= p.c) || p.r <= i < Size - 1) ==>
        b[i][j] != 0
  {
    var s := AsWrittenOrder(p);
    FirstZeroNone(b, s);
    if FirstZero(b, s).None? {
      forall i, j | 0 <= i < Size && 0 <= j < Size && ((i == p.r && j >= p.c) || p.r <= i < Size - 1)
        ensures b[i][j] != 0
      {
        AsWrittenCovers(p, Pos(i, j));
        var k :| 0 <= k < |s| && s[k] == Pos(i, j);
      }
    } else {
      var k :| 0 <= k < |s| && b[s[k].r][s[k].c] == 0;
      AsWrittenCovers(p, s[k]);
    }
  }

  /** With the intended scan, a snapshot is a goal exactly when no cell at or
      after the cursor is unassigned. */
  lemma IntendedGoal(b: Grid, p: Pos)
    requires IsGrid(b) && ValidPos(p)
    ensures FirstZero(b, IntendedOrder(p)).None? <==>
      forall i, j :: 0 <= i < Size && 0 <= j < Size && ((i == p.r && j >= p.c) || i > p.r) ==> b[i][j] != 0
  {
    var s := IntendedOrder(p);
    FirstZeroNone(b, s);
    if FirstZero(b, s).None? {
      forall i, j | 0 <= i < Size && 0 <= j < Size && ((i == p.r && j >= p.c) || i > p.r)
        ensures b[i][j] != 0
      {
        IntendedCovers(p, Pos(i, j));
        var k :| 0 <= k < |s| && s[k] == Pos(i, j);
      }
    } else {
      var k :| 0 <= k < |s| && b[s[k].r][s[k].c] == 0;
      IntendedCovers(p, s[k]);
    }
  }

  /** The first scan: when the cursor row has an unassigned cell at or after
      the cursor column, the leftmost such cell is found. */
  lemma FindsInCursorRow(b: Grid, p: Pos, c: int)
    requires IsGrid(b) && ValidPos(p) && p.c <= c < Size && b[p.r][c] == 0
    requires forall k :: p.c <= k < c ==> b[p.r][k] != 0
    ensures FirstZero(b, AsWrittenOrder(p)) == Some(Pos(p.r, c))
  {
    FirstScanHit(b, p, Rows(p.r, Size - 1), c);
  }

  /** A grid whose only unassigned cell is (i, j). */
  function OneHole(i: int, j: int): (b: Grid)
    ensures IsGrid(b)
  {
    seq(Size, r => seq(Size, c => if r == i && c == j then 0 else 1))
  }

  /** The second scan rescans the cursor row from column 0: with the cursor at
      (1, 5) and only (1, 2) unassigned, the cell left of the cursor is found. */
  lemma FindsLeftOfCursor()
    ensures FirstZero(OneHole(1, 2), AsWrittenOrder(Pos(1, 5))) == Some(Pos(1, 2))
  {
    var b := OneHole(1, 2);
    assert forall k :: 5 <= k < Size ==> b[1][k] != 0;
    var row := RowFrom(1, 5);
    assert forall k :: 0 <= k < |row| ==> b[row[k].r][row[k].c] != 0;
    FirstZeroNone(b, row);
    assert FirstZero(b, Rows(1, 1)) == None;
    ScanHit(b, RowFrom(1, 5), 1, Size - 1, 1, 2);
  }

  /** Row 8 is never examined unless the cursor is in it: with the cursor at
      (7, 0) and only (8, 0) unassigned the scan finds nothing, so the snapshot
      counts as a goal although a cell is still unassigned. */
  lemma AsWrittenMissesLastRow()
    ensures OneHole(8, 0)[8][0] == 0
    ensures FirstZero(OneHole(8, 0), AsWrittenOrder(Pos(7, 0))) == None
  {
    var b, p := OneHole(8, 0), Pos(7, 0);
    var s := AsWrittenOrder(p);
    forall k | 0 <= k < |s| ensures b[s[k].r][s[k].c] != 0 {
      AsWrittenCovers(p, s[k]);
    }
    FirstZeroNone(b, s);
  }

  /** The intended scan finds that cell. */
  lemma IntendedFindsLastRow()
    ensures FirstZero(OneHole(8, 0), IntendedOrder(Pos(7, 0))) == Some(Pos(8, 0))
  {
    var b := OneHole(8, 0);
    assert forall k :: 0 <= k < Size ==> b[7][k] != 0;
    FirstZeroNone(b, RowFrom(7, 0));
    assert FirstZero(b, Rows(8, 8)) == None;
    ScanHit(b, RowFrom(7, 0), 8, Size, 8, 0);
  }
}
