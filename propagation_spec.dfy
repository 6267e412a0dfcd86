/** The meaning of BoardFunctions' propagation, as mutually recursive functions:
    each loop of the source becomes recursion on its index, and each function
    returns the (grid, table) pair that the corresponding step returns.

    Termination: a nested propagation only starts after an unassigned cell has
    been filled, so the measure is the set of unassigned cells, then the phase
    (propagate > row pass > column pass > box pass > visited cell >
    single-candidate step), then the loop indices.

    The functions only state what termination needs; what they do to the
    grid and the table is stated by the ...Facts lemmas below them. */
module PropagationSpec {
  import opened Grid
  import opened Validity

  /** The box cell the box pass visits at band offsets (ri, ci): row ri of
      p's band of rows, column ci of p's band of columns. */
  function BoxCell(p: Pos, ri: int, ci: int): (q: Pos)
    requires ValidPos(p) && 0 <= ri < BoxSize && 0 <= ci < BoxSize
    ensures ValidPos(q)
  {
    Pos(p.r / 3 * 3 + ri, p.c / 3 * 3 + ci)
  }

  /** The cell visited at offsets (ri, ci) lies in p's box, at those offsets
      within it. */
  lemma BoxCellIn(p: Pos, ri: int, ci: int)
    requires ValidPos(p) && 0 <= ri < BoxSize && 0 <= ci < BoxSize
    ensures InBoxOf(p, BoxCell(p, ri, ci).r, BoxCell(p, ri, ci).c)
    ensures BoxCell(p, ri, ci).r % 3 == ri && BoxCell(p, ri, ci).c % 3 == ci
  {
  }

  /** The box cell (i, j) of p is visited at or after offsets (ri, ci), in
      the order of the nested loops. */
  predicate Pending(p: Pos, i: int, j: int, ri: int, ci: int) {
    InBoxOf(p, i, j) && (i % 3 > ri || (i % 3 == ri && j % 3 >= ci))
  }

  /** The single-candidate step fires at p: the cell is unassigned and its
      first candidate passes the check (which includes p's own cell). */
  predicate Assigns(b: Grid, t: Table, p: Pos)
    requires IsGrid(b) && IsTable(t) && ValidPos(p) && t[p.r][p.c] != []
  {
    b[p.r][p.c] == 0 && IsValidPos(b, p, t[p.r][p.c][0], true)
  }

  /** _deal_with_1_possible_action. */
  ghost function Dealt(b: Grid, t: Table, p: Pos): (r: Boards)
    requires IsGrid(b) && IsTable(t) && ValidPos(p) && t[p.r][p.c] != []
    ensures IsGrid(r.grid) && IsTable(r.table) && KeepsAssigned(b, r.grid)
    decreases Zeros(b), 0, 0, 0
  {
    if b[p.r][p.c] != 0 then Boards(b, t)
    else
      var v := t[p.r][p.c][0];
      if IsValidPos(b, p, v, true) then
        ValidDiffersFromCell(b, p, v);
        AssignShrinksZeros(b, p, v);
        Propagated(Assign(b, p, v), t, p, v)
      else Boards(b, t)
  }

  /** One visited cell of a pass: pop n from the list at q and, if one
      candidate is left, run the single-candidate step on q. */
  ghost function CellStep(b: Grid, t: Table, q: Pos, n: int): (r: Boards)
    requires IsGrid(b) && IsTable(t) && ValidPos(q)
    ensures IsGrid(r.grid) && IsTable(r.table) && KeepsAssigned(b, r.grid)
    decreases Zeros(b), 1, 0, 0
  {
    var t1 := Removed(t, q.r, q.c, n);
    if |t1[q.r][q.c]| == 1 then Dealt(b, t1, q) else Boards(b, t1)
  }

  /** _propagate_horizontally from column i on, then the column pass. */
  ghost function RowSwept(b: Grid, t: Table, p: Pos, n: int, i: int): (r: Boards)
    requires IsGrid(b) && IsTable(t) && ValidPos(p) && 0 <= i <= Size
    ensures IsGrid(r.grid) && IsTable(r.table) && KeepsAssigned(b, r.grid)
    decreases Zeros(b), 4, Size - i, 0
  {
    if i == Size then ColumnSwept(b, t, p, n, 0)
    else
      var s := CellStep(b, t, Pos(p.r, i), n);
      KeepsAssignedZeros(b, s.grid);
      RowSwept(s.grid, s.table, p, n, i + 1)
  }

  /** _propagate_vertically from row i on, then the box pass. */
  ghost function ColumnSwept(b: Grid, t: Table, p: Pos, n: int, i: int): (r: Boards)
    requires IsGrid(b) && IsTable(t) && ValidPos(p) && 0 <= i <= Size
    ensures IsGrid(r.grid) && IsTable(r.table) && KeepsAssigned(b, r.grid)
    decreases Zeros(b), 3, Size - i, 0
  {
    if i == Size then BoxSwept(b, t, p, n, 0, 0)
    else
      var s := CellStep(b, t, Pos(i, p.c), n);
      KeepsAssignedZeros(b, s.grid);
      ColumnSwept(s.grid, s.table, p, n, i + 1)
  }

  /** _propagate_box_wise from band offsets (ri, ci) on: a cascade fired at a
      cell keeps its grid, but its table is dropped and the pass goes on with
      the table it had before the cascade. */
  ghost function BoxSwept(b: Grid, t: Table, p: Pos, n: int, ri: int, ci: int): (r: Boards)
    requires IsGrid(b) && IsTable(t) && ValidPos(p) && 0 <= ri <= BoxSize && 0 <= ci <= BoxSize
    ensures IsGrid(r.grid) && IsTable(r.table) && KeepsAssigned(b, r.grid)
    decreases Zeros(b), 2, BoxSize - ri, BoxSize - ci
  {
    if ri == BoxSize then Boards(b, t)
    else if ci == BoxSize then BoxSwept(b, t, p, n, ri + 1, 0)
    else
      var q := BoxCell(p, ri, ci);
      var g := CellStep(b, t, q, n).grid;
      KeepsAssignedZeros(b, g);
      BoxSwept(g, Removed(t, q.r, q.c, n), p, n, ri, ci + 1)
  }

  /** propagate: the row pass, which ends in the column pass, which ends in
      the box pass. */
  ghost function Propagated(b: Grid, t: Table, p: Pos, n: int): (r: Boards)
    requires IsGrid(b) && IsTable(t) && ValidPos(p)
    ensures IsGrid(r.grid) && IsTable(r.table) && KeepsAssigned(b, r.grid)
    decreases Zeros(b), 5, 0, 0
  {
    RowSwept(b, t, p, n, 0)
  }

  /** Every cell of p's row from column i on has lost n from t to t'. */
  ghost predicate RowDone(t: Table, t': Table, p: Pos, n: int, i: int)
    requires IsTable(t) && IsTable(t') && ValidPos(p)
  {
    forall j :: i <= j < Size && 0 <= j ==> Eliminated(t, t', p.r, j, n)
  }

  /** Every cell of p's column from row i on has lost n from t to t'. */
  ghost predicate ColumnDone(t: Table, t': Table, p: Pos, n: int, i: int)
    requires IsTable(t) && IsTable(t') && ValidPos(p)
  {
    forall k :: i <= k < Size && 0 <= k ==> Eliminated(t, t', k, p.c, n)
  }

  /** Every cell of p's box has lost n from t to t'. */
  ghost predicate BoxDone(t: Table, t': Table, p: Pos, n: int)
    requires IsTable(t) && IsTable(t') && ValidPos(p)
  {
    forall i, j :: 0 <= i < Size && 0 <= j < Size && InBoxOf(p, i, j) ==> Eliminated(t, t', i, j, n)
  }

  /** t' is t with n popped from the box cells of p still pending at
      offsets (ri, ci), and with every other list as it was. */
  ghost predicate BoxTable(t: Table, t': Table, p: Pos, n: int, ri: int, ci: int)
    requires IsTable(t) && IsTable(t') && ValidPos(p)
  {
    forall i, j :: 0 <= i < Size && 0 <= j < Size ==>
      t'[i][j] == (if Pending(p, i, j, ri, ci) then RemoveFirst(t[i][j], n) else t[i][j])
  }

  /** The single-candidate step only fills p, with its first candidate, and
      only when Assigns holds; then that candidate is eliminated from every
      peer of p, p included. Otherwise nothing changes. */
  lemma {:induction false} DealtFacts(b: Grid, t: Table, p: Pos)
    requires IsGrid(b) && IsTable(t) && ValidPos(p) && t[p.r][p.c] != []
    ensures Evolves(b, t, Dealt(b, t, p))
    ensures Assigns(b, t, p) ==> Dealt(b, t, p).grid[p.r][p.c] == t[p.r][p.c][0]
    ensures Assigns(b, t, p) ==> forall i, j :: 0 <= i < Size && 0 <= j < Size && Peer(p, i, j) ==>
      Eliminated(t, Dealt(b, t, p).table, i, j, t[p.r][p.c][0])
    ensures !Assigns(b, t, p) ==> Dealt(b, t, p) == Boards(b, t)
    decreases Zeros(b), 0, 0, 0, 0
  {
    if Assigns(b, t, p) {
      var v := t[p.r][p.c][0];
      ValidDiffersFromCell(b, p, v);
      AssignShrinksZeros(b, p, v);
      var b1 := Assign(b, p, v);
      assert Evolves(b, t, Boards(b1, t));
      PropagatedFacts(b1, t, p, v);
      EvolvesTrans(b, t, Boards(b1, t), Propagated(b1, t, p, v));
    } else {
      EvolvesRefl(b, t);
    }
  }

  /** A visited cell loses n, and whatever cascade follows only fills empty
      cells from their candidates and only drops candidates. */
  lemma {:induction false} CellStepFacts(b: Grid, t: Table, q: Pos, n: int)
    requires IsGrid(b) && IsTable(t) && ValidPos(q)
    ensures Evolves(b, t, CellStep(b, t, q, n))
    ensures Eliminated(t, CellStep(b, t, q, n).table, q.r, q.c, n)
    ensures Evolves(b, t, Boards(CellStep(b, t, q, n).grid, Removed(t, q.r, q.c, n)))
    decreases Zeros(b), 1, 0, 0, 0
  {
    var t1 := Removed(t, q.r, q.c, n);
    RemovedEvolves(b, t, q.r, q.c, n);
    if |t1[q.r][q.c]| == 1 {
      var s := Dealt(b, t1, q);
      DealtFacts(b, t1, q);
      EvolvesTrans(b, t, Boards(b, t1), s);
      EliminatedThenShrunk(t, t1, s.table, q.r, q.c, n);
      GridEvolves(b, t1, s);
      EvolvesTrans(b, t, Boards(b, t1), Boards(s.grid, t1));
    }
  }

  /** What one row-pass iteration adds to what the rest of the row pass did. */
  lemma {:induction false} RowStep(b: Grid, t: Table, s: Boards, r: Boards, p: Pos, n: int, i: int)
    requires IsGrid(b) && IsTable(t) && ValidPos(p) && 0 <= i < Size
    requires Evolves(b, t, s) && Eliminated(t, s.table, p.r, i, n) && Evolves(s.grid, s.table, r)
    requires RowDone(s.table, r.table, p, n, i + 1) && ColumnDone(s.table, r.table, p, n, 0)
    requires BoxDone(s.table, r.table, p, n)
    ensures Evolves(b, t, r)
    ensures RowDone(t, r.table, p, n, i) && ColumnDone(t, r.table, p, n, 0) && BoxDone(t, r.table, p, n)
  {
    EvolvesTrans(b, t, s, r);
    EliminatedCarries(b, t, s, r.table, n);
    EliminatedThenShrunk(t, s.table, r.table, p.r, i, n);
  }

  /** What one column-pass iteration adds to what the rest of the column pass did. */
  lemma {:induction false} ColumnStep(b: Grid, t: Table, s: Boards, r: Boards, p: Pos, n: int, i: int)
    requires IsGrid(b) && IsTable(t) && ValidPos(p) && 0 <= i < Size
    requires Evolves(b, t, s) && Eliminated(t, s.table, i, p.c, n) && Evolves(s.grid, s.table, r)
    requires ColumnDone(s.table, r.table, p, n, i + 1) && BoxDone(s.table, r.table, p, n)
    ensures Evolves(b, t, r)
    ensures ColumnDone(t, r.table, p, n, i) && BoxDone(t, r.table, p, n)
  {
    EvolvesTrans(b, t, s, r);
    EliminatedCarries(b, t, s, r.table, n);
    EliminatedThenShrunk(t, s.table, r.table, i, p.c, n);
  }

  /** What one box-pass visit adds to the table the rest of the box pass
      returns: the visited cell is the only one pending at (ri, ci) and not
      at (ri, ci + 1). */
  lemma {:induction false} BoxStep(t: Table, r: Table, p: Pos, n: int, ri: int, ci: int)
    requires IsTable(t) && IsTable(r) && ValidPos(p) && 0 <= ri < BoxSize && 0 <= ci < BoxSize
    requires BoxTable(Removed(t, BoxCell(p, ri, ci).r, BoxCell(p, ri, ci).c, n), r, p, n, ri, ci + 1)
    ensures BoxTable(t, r, p, n, ri, ci)
  {
    var q := BoxCell(p, ri, ci);
    BoxCellIn(p, ri, ci);
    var t1 := Removed(t, q.r, q.c, n);
    forall i, j | 0 <= i < Size && 0 <= j < Size
      ensures r[i][j] == (if Pending(p, i, j, ri, ci) then RemoveFirst(t[i][j], n) else t[i][j])
    {
      assert r[i][j] == (if Pending(p, i, j, ri, ci + 1) then RemoveFirst(t1[i][j], n) else t1[i][j]);
      if i == q.r && j == q.c {
        assert r[i][j] == t1[i][j];
      } else {
        assert t1[i][j] == t[i][j];
        assert Pending(p, i, j, ri, ci) == Pending(p, i, j, ri, ci + 1);
      }
    }
  }

  /** Past the last row of the band no box cell is pending. */
  lemma BoxTableDone(t: Table, p: Pos, n: int, ci: int)
    requires IsTable(t) && ValidPos(p)
    ensures BoxTable(t, t, p, n, BoxSize, ci)
  {
    forall i, j | 0 <= i < Size && 0 <= j < Size ensures !Pending(p, i, j, BoxSize, ci) {
      assert i % 3 < 3;
    }
  }

  /** Past the last column of band row ri, the cells pending are those from
      the start of band row ri + 1. */
  lemma BoxTableRowEnd(t: Table, t': Table, p: Pos, n: int, ri: int)
    requires IsTable(t) && IsTable(t') && ValidPos(p) && BoxTable(t, t', p, n, ri + 1, 0)
    ensures BoxTable(t, t', p, n, ri, BoxSize)
  {
    forall i, j | 0 <= i < Size && 0 <= j < Size
      ensures Pending(p, i, j, ri, BoxSize) == Pending(p, i, j, ri + 1, 0)
    {
      assert 0 <= j % 3 < 3;
    }
  }

  /** The row pass from column i: every row cell from i on, every column cell
      and every box cell of p has lost n. */
  lemma {:induction false} RowSweptFacts(b: Grid, t: Table, p: Pos, n: int, i: int)
    requires IsGrid(b) && IsTable(t) && ValidPos(p) && 0 <= i <= Size
    ensures Evolves(b, t, RowSwept(b, t, p, n, i))
    ensures RowDone(t, RowSwept(b, t, p, n, i).table, p, n, i)
    ensures ColumnDone(t, RowSwept(b, t, p, n, i).table, p, n, 0)
    ensures BoxDone(t, RowSwept(b, t, p, n, i).table, p, n)
    decreases Zeros(b), 4, Size - i, 0, 0
  {
    if i == Size {
      ColumnSweptFacts(b, t, p, n, 0);
    } else {
      var s := CellStep(b, t, Pos(p.r, i), n);
      CellStepFacts(b, t, Pos(p.r, i), n);
      KeepsAssignedZeros(b, s.grid);
      RowSweptFacts(s.grid, s.table, p, n, i + 1);
      RowStep(b, t, s, RowSwept(s.grid, s.table, p, n, i + 1), p, n, i);
    }
  }

  /** The column pass from row i: every column cell from i on and every box
      cell of p has lost n. */
  lemma {:induction false} ColumnSweptFacts(b: Grid, t: Table, p: Pos, n: int, i: int)
    requires IsGrid(b) && IsTable(t) && ValidPos(p) && 0 <= i <= Size
    ensures Evolves(b, t, ColumnSwept(b, t, p, n, i))
    ensures ColumnDone(t, ColumnSwept(b, t, p, n, i).table, p, n, i)
    ensures BoxDone(t, ColumnSwept(b, t, p, n, i).table, p, n)
    decreases Zeros(b), 3, Size - i, 0, 0
  {
    if i == Size {
      BoxSweptFacts(b, t, p, n, 0, 0);
      BoxSweptTable(b, t, p, n, 0, 0);
      BoxSweepEliminates(t, BoxSwept(b, t, p, n, 0, 0).table, p, n);
    } else {
      var s := CellStep(b, t, Pos(i, p.c), n);
      CellStepFacts(b, t, Pos(i, p.c), n);
      KeepsAssignedZeros(b, s.grid);
      ColumnSweptFacts(s.grid, s.table, p, n, i + 1);
      ColumnStep(b, t, s, ColumnSwept(s.grid, s.table, p, n, i + 1), p, n, i);
    }
  }

  /** The box pass from offsets (ri, ci) only fills empty cells from their
      candidates and only drops candidates. */
  lemma {:induction false} BoxSweptFacts(b: Grid, t: Table, p: Pos, n: int, ri: int, ci: int)
    requires IsGrid(b) && IsTable(t) && ValidPos(p) && 0 <= ri <= BoxSize && 0 <= ci <= BoxSize
    ensures Evolves(b, t, BoxSwept(b, t, p, n, ri, ci))
    decreases Zeros(b), 2, BoxSize - ri, BoxSize - ci, 1
  {
    if ri == BoxSize {
      EvolvesRefl(b, t);
    } else if ci == BoxSize {
      BoxSweptFacts(b, t, p, n, ri + 1, 0);
    } else {
      BoxVisitFacts(b, t, p, n, ri, ci);
    }
  }

  /** The box-pass visit at offsets (ri, ci) followed by the rest of the pass. */
  lemma {:induction false} BoxVisitFacts(b: Grid, t: Table, p: Pos, n: int, ri: int, ci: int)
    requires IsGrid(b) && IsTable(t) && ValidPos(p) && 0 <= ri < BoxSize && 0 <= ci < BoxSize
    ensures Evolves(b, t, BoxSwept(b, t, p, n, ri, ci))
    decreases Zeros(b), 2, BoxSize - ri, BoxSize - ci, 0
  {
    var q := BoxCell(p, ri, ci);
    var t1 := Removed(t, q.r, q.c, n);
    var g := CellStep(b, t, q, n).grid;
    CellStepFacts(b, t, q, n);
    KeepsAssignedZeros(b, g);
    BoxSweptFacts(g, t1, p, n, ri, ci + 1);
    EvolvesTrans(b, t, Boards(g, t1), BoxSwept(g, t1, p, n, ri, ci + 1));
  }

  /** The table the box pass from offsets (ri, ci) returns is exactly the
      incoming one with n popped from the pending box cells, whatever the
      cascades did: their tables are dropped. */
  lemma {:induction false} BoxSweptTable(b: Grid, t: Table, p: Pos, n: int, ri: int, ci: int)
    requires IsGrid(b) && IsTable(t) && ValidPos(p) && 0 <= ri <= BoxSize && 0 <= ci <= BoxSize
    ensures BoxTable(t, BoxSwept(b, t, p, n, ri, ci).table, p, n, ri, ci)
    decreases BoxSize - ri, BoxSize - ci, 1
  {
    if ri == BoxSize {
      BoxTableDone(t, p, n, ci);
    } else if ci == BoxSize {
      BoxSweptTable(b, t, p, n, ri + 1, 0);
      BoxTableRowEnd(t, BoxSwept(b, t, p, n, ri + 1, 0).table, p, n, ri);
    } else {
      BoxVisitTable(b, t, p, n, ri, ci);
    }
  }

  /** The table after the box-pass visit at offsets (ri, ci) and the rest of
      the pass. */
  lemma {:induction false} BoxVisitTable(b: Grid, t: Table, p: Pos, n: int, ri: int, ci: int)
    requires IsGrid(b) && IsTable(t) && ValidPos(p) && 0 <= ri < BoxSize && 0 <= ci < BoxSize
    ensures BoxTable(t, BoxSwept(b, t, p, n, ri, ci).table, p, n, ri, ci)
    decreases BoxSize - ri, BoxSize - ci, 0
  {
    var q := BoxCell(p, ri, ci);
    var g := CellStep(b, t, q, n).grid;
    var t1 := Removed(t, q.r, q.c, n);
    BoxSweptTable(g, t1, p, n, ri, ci + 1);
    BoxSweptUnfold(b, t, p, n, ri, ci);
    BoxStep(t, BoxSwept(g, t1, p, n, ri, ci + 1).table, p, n, ri, ci);
  }

  /** The table a whole box pass returns has lost n in every box cell. */
  lemma BoxSweepEliminates(t: Table, t': Table, p: Pos, n: int)
    requires IsTable(t) && IsTable(t') && ValidPos(p) && BoxTable(t, t', p, n, 0, 0)
    ensures BoxDone(t, t', p, n)
  {
    forall i, j | 0 <= i < Size && 0 <= j < Size && InBoxOf(p, i, j)
      ensures Eliminated(t, t', i, j, n)
    {
      assert Pending(p, i, j, 0, 0);
      RemoveFirstCount(t[i][j], n);
    }
  }

  /** propagate only fills empty cells, each with one of its candidates, only
      drops candidates, and leaves n eliminated from every peer of p. */
  lemma {:induction false} PropagatedFacts(b: Grid, t: Table, p: Pos, n: int)
    requires IsGrid(b) && IsTable(t) && ValidPos(p)
    ensures Evolves(b, t, Propagated(b, t, p, n))
    ensures forall i, j :: 0 <= i < Size && 0 <= j < Size && Peer(p, i, j) ==>
      Eliminated(t, Propagated(b, t, p, n).table, i, j, n)
    decreases Zeros(b), 5, 0, 0, 0
  {
    RowSweptFacts(b, t, p, n, 0);
  }

  /** One row-pass iteration, as the loop of the source takes it. */
  lemma RowSweptUnfold(b: Grid, t: Table, p: Pos, n: int, i: int)
    requires IsGrid(b) && IsTable(t) && ValidPos(p) && 0 <= i < Size
    ensures RowSwept(b, t, p, n, i) ==
      RowSwept(CellStep(b, t, Pos(p.r, i), n).grid, CellStep(b, t, Pos(p.r, i), n).table, p, n, i + 1)
  {
  }

  /** One column-pass iteration. */
  lemma ColumnSweptUnfold(b: Grid, t: Table, p: Pos, n: int, i: int)
    requires IsGrid(b) && IsTable(t) && ValidPos(p) && 0 <= i < Size
    ensures ColumnSwept(b, t, p, n, i) ==
      ColumnSwept(CellStep(b, t, Pos(i, p.c), n).grid, CellStep(b, t, Pos(i, p.c), n).table, p, n, i + 1)
  {
  }

  /** One box-pass visit. */
  lemma BoxSweptUnfold(b: Grid, t: Table, p: Pos, n: int, ri: int, ci: int)
    requires IsGrid(b) && IsTable(t) && ValidPos(p) && 0 <= ri < BoxSize && 0 <= ci < BoxSize
    ensures BoxSwept(b, t, p, n, ri, ci) ==
      BoxSwept(CellStep(b, t, BoxCell(p, ri, ci), n).grid,
               Removed(t, BoxCell(p, ri, ci).r, BoxCell(p, ri, ci).c, n), p, n, ri, ci + 1)
  {
  }
}
