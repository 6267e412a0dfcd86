/** Values shared by the whole engine: the 9x9 grid of digits, the 9x9 table of
    candidate lists, positions, and the small operations on them. */
module Grid {

  /** Side of the board, and side of a box. */
  const Size := 9
  const BoxSize := 3

  datatype Option<T> = None | Some(value: T)

  /** A cell position (row, column). */
  datatype Pos = Pos(r: int, c: int)

  /** The grid: 0 is an unassigned cell. */
  type Grid = seq<seq<int>>

  /** For every cell, the list of values that may still be put there. */
  type Table = seq<seq<seq<int>>>

  /** The (grid, candidate table) pair that every propagation step returns. */
  datatype Boards = Boards(grid: Grid, table: Table)

  /** The shape of deal_with_1_picks, which no file of the engine defines: the
      callers pass it in as a function of (grid, table). */
  type Picks = (Grid, Table) -> Boards

  predicate ValidPos(p: Pos) {
    0 <= p.r < Size && 0 <= p.c < Size
  }

  predicate IsGrid(b: Grid) {
    |b| == Size && forall i :: 0 <= i < Size ==> |b[i]| == Size
  }

  predicate IsTable(t: Table) {
    |t| == Size && forall i :: 0 <= i < Size ==> |t[i]| == Size
  }

  /** The grid with value v written at p. */
  function Assign(b: Grid, p: Pos, v: int): (r: Grid)
    requires IsGrid(b) && ValidPos(p)
    ensures IsGrid(r) && r[p.r][p.c] == v
    ensures forall i, j :: 0 <= i < Size && 0 <= j < Size && (i != p.r || j != p.c) ==> r[i][j] == b[i][j]
  {
    b[p.r := b[p.r][p.c := v]]
  }

  /** The table with list l stored at cell (i, j). */
  function SetCandidates(t: Table, i: int, j: int, l: seq<int>): (r: Table)
    requires IsTable(t) && 0 <= i < Size && 0 <= j < Size
    ensures IsTable(r) && r[i][j] == l
    ensures forall i', j' :: 0 <= i' < Size && 0 <= j' < Size && (i' != i || j' != j) ==> r[i'][j'] == t[i'][j']
  {
    t[i := t[i][j := l]]
  }

  /** Python's list.index: the first index at which n occurs in s. */
  function IndexOf(s: seq<int>, n: int): (k: nat)
    requires n in s
    ensures k < |s| && s[k] == n && n !in s[..k]
  {
    if s[0] == n then 0
    else
      var k := IndexOf(s[1..], n);
      assert s[1..][..k] == s[1..k + 1];
      1 + k
  }

  /** The list with the first occurrence of n popped, or the list itself when n
      does not occur (the `index` + `pop` inside `try ... except ValueError`). */
  function RemoveFirst(s: seq<int>, n: int): (r: seq<int>)
    ensures n !in s ==> r == s
    ensures n in s ==> exists k :: 0 <= k < |s| && s[k] == n && n !in s[..k] && r == s[..k] + s[k + 1..]
    ensures n in s ==> |r| == |s| - 1
  {
    if n in s then
      var k := IndexOf(s, n);
      s[..k] + s[k + 1..]
    else
      s
  }

  /** Popping n takes exactly one occurrence of n out of the list, if there
      is one, and keeps every other value with its count. */
  lemma RemoveFirstCount(s: seq<int>, n: int)
    ensures multiset(RemoveFirst(s, n)) == multiset(s) - multiset{n}
  {
    if n in s {
      var k := IndexOf(s, n);
      assert s == s[..k] + [s[k]] + s[k + 1..];
    } else {
      assert multiset(s)[n] == 0;
    }
  }

  /** The table with n removed (first occurrence) from the list at (i, j). */
  function Removed(t: Table, i: int, j: int, n: int): (r: Table)
    requires IsTable(t) && 0 <= i < Size && 0 <= j < Size
    ensures IsTable(r) && r == SetCandidates(t, i, j, RemoveFirst(t[i][j], n))
  {
    SetCandidates(t, i, j, RemoveFirst(t[i][j], n))
  }

  /** The unassigned cells of a grid. */
  ghost function Zeros(b: Grid): set<Pos>
    requires IsGrid(b)
  {
    set i, j | 0 <= i < Size && 0 <= j < Size && b[i][j] == 0 :: Pos(i, j)
  }

  /** A step from (b, t) to s that only fills unassigned cells, each with a value
      taken from that cell's candidate list, and only drops candidates. */
  ghost predicate Evolves(b: Grid, t: Table, s: Boards)
    requires IsGrid(b) && IsTable(t)
  {
    IsGrid(s.grid) && IsTable(s.table) &&
    forall i, j :: 0 <= i < Size && 0 <= j < Size ==>
      (b[i][j] != 0 ==> s.grid[i][j] == b[i][j]) &&
      (s.grid[i][j] != b[i][j] ==> s.grid[i][j] in t[i][j]) &&
      multiset(s.table[i][j]) <= multiset(t[i][j])
  }

  /** deal_with_1_picks hands back a 9x9 grid and a 9x9 table. */
  ghost predicate PreservesShape(picks: Picks) {
    forall g, t :: IsGrid(g) && IsTable(t) ==> IsGrid(picks(g, t).grid) && IsTable(picks(g, t).table)
  }

  /** deal_with_1_picks only fills unassigned cells from their lists and only
      drops candidates. */
  ghost predicate EvolvesAll(picks: Picks) {
    PreservesShape(picks) &&
    forall g, t :: IsGrid(g) && IsTable(t) ==> Evolves(g, t, picks(g, t))
  }

  /** The list at (i, j) of t' has lost (one occurrence of) n relative to t,
      and possibly more. */
  ghost predicate Eliminated(t: Table, t': Table, i: int, j: int, n: int)
    requires IsTable(t) && IsTable(t') && 0 <= i < Size && 0 <= j < Size
  {
    multiset(t'[i][j]) <= multiset(t[i][j]) - multiset{n}
  }

  lemma EvolvesRefl(b: Grid, t: Table)
    requires IsGrid(b) && IsTable(t)
    ensures Evolves(b, t, Boards(b, t))
  {
  }

  lemma {:induction false} EvolvesTrans(b: Grid, t: Table, s1: Boards, s2: Boards)
    requires IsGrid(b) && IsTable(t)
    requires Evolves(b, t, s1) && Evolves(s1.grid, s1.table, s2)
    ensures Evolves(b, t, s2)
  {
    forall i, j | 0 <= i < Size && 0 <= j < Size
      ensures s2.grid[i][j] != b[i][j] ==> s2.grid[i][j] in t[i][j]
    {
      if s2.grid[i][j] != s1.grid[i][j] {
        assert s2.grid[i][j] in multiset(s1.table[i][j]);
      }
    }
  }

  /** Removing a candidate is a step that only drops candidates. */
  lemma RemovedEvolves(b: Grid, t: Table, i: int, j: int, n: int)
    requires IsGrid(b) && IsTable(t) && 0 <= i < Size && 0 <= j < Size
    ensures Evolves(b, t, Boards(b, Removed(t, i, j, n)))
    ensures Eliminated(t, Removed(t, i, j, n), i, j, n)
  {
    RemoveFirstCount(t[i][j], n);
  }

  /** Once n has been eliminated at (i, j), dropping more candidates keeps it so. */
  lemma EliminatedThenShrunk(t: Table, t1: Table, t2: Table, i: int, j: int, n: int)
    requires IsTable(t) && IsTable(t1) && IsTable(t2) && 0 <= i < Size && 0 <= j < Size
    requires Eliminated(t, t1, i, j, n) && multiset(t2[i][j]) <= multiset(t1[i][j])
    ensures Eliminated(t, t2, i, j, n)
  {
  }

  /** Eliminating n from a smaller list leaves n eliminated relative to the larger. */
  lemma ShrunkThenEliminated(t: Table, t1: Table, t2: Table, i: int, j: int, n: int)
    requires IsTable(t) && IsTable(t1) && IsTable(t2) && 0 <= i < Size && 0 <= j < Size
    requires multiset(t1[i][j]) <= multiset(t[i][j]) && Eliminated(t1, t2, i, j, n)
    ensures Eliminated(t, t2, i, j, n)
  {
    var a, b, c := multiset(t[i][j]), multiset(t1[i][j]), multiset(t2[i][j]);
    forall x ensures c[x] <= (a - multiset{n})[x] {
      assert c[x] <= (b - multiset{n})[x];
    }
  }

  /** Eliminations relative to an intermediate table carry back to the tables
      before it. */
  lemma EliminatedCarries(b: Grid, t: Table, s: Boards, t2: Table, n: int)
    requires IsGrid(b) && IsTable(t) && IsTable(t2) && Evolves(b, t, s)
    ensures forall i, j :: 0 <= i < Size && 0 <= j < Size && Eliminated(s.table, t2, i, j, n) ==>
      Eliminated(t, t2, i, j, n)
  {
    forall i, j | 0 <= i < Size && 0 <= j < Size && Eliminated(s.table, t2, i, j, n)
      ensures Eliminated(t, t2, i, j, n)
    {
      ShrunkThenEliminated(t, s.table, t2, i, j, n);
    }
  }

  /** Keeping a step's grid but not its table is still a step. */
  lemma GridEvolves(b: Grid, t: Table, s: Boards)
    requires IsGrid(b) && IsTable(t) && Evolves(b, t, s)
    ensures Evolves(b, t, Boards(s.grid, t))
  {
  }

  /** g has a digit wherever b has one. */
  ghost predicate KeepsAssigned(b: Grid, g: Grid)
    requires IsGrid(b) && IsGrid(g)
  {
    forall i, j :: 0 <= i < Size && 0 <= j < Size && b[i][j] != 0 ==> g[i][j] != 0
  }

  /** A grid that keeps every digit has no unassigned cell the other lacks. */
  lemma KeepsAssignedZeros(b: Grid, g: Grid)
    requires IsGrid(b) && IsGrid(g) && KeepsAssigned(b, g)
    ensures Zeros(g) <= Zeros(b)
  {
    forall q | q in Zeros(g) ensures q in Zeros(b) {
      assert g[q.r][q.c] == 0;
    }
  }

  /** Filling an unassigned cell with a non-zero value removes it from Zeros. */
  lemma AssignShrinksZeros(b: Grid, p: Pos, v: int)
    requires IsGrid(b) && ValidPos(p) && b[p.r][p.c] == 0 && v != 0
    ensures Zeros(Assign(b, p, v)) < Zeros(b)
  {
    var b' := Assign(b, p, v);
    assert p in Zeros(b) && p !in Zeros(b');
    forall q | q in Zeros(b') ensures q in Zeros(b) {
      assert b'[q.r][q.c] == 0;
    }
  }
}
