/** The read-only part of BoardFunctions: box ranges and the validity check
    over a cell's row, column and box. */
module Validity {
  import opened Grid

  /** The three indices of the band that index i falls in; any index outside
      0..8 falls in the last band. */
  function FindBoxRange(i: int): (r: seq<int>)
    ensures |r| == BoxSize && r[1] == r[0] + 1 && r[2] == r[0] + 2
    ensures 0 <= r[0] && r[2] < Size
    ensures !(0 <= i < Size) ==> r == [6, 7, 8]
  {
    if 0 <= i < 3 then [0, 1, 2]
    else if 3 <= i < 6 then [3, 4, 5]
    else [6, 7, 8]
  }

  /** For an index on the board, the band is exactly the indices that share
      its box row (or box column), and it starts at a multiple of three. */
  lemma FindBoxRangeBand(i: int)
    requires 0 <= i < Size
    ensures forall x :: x in FindBoxRange(i) <==> 0 <= x < Size && x / 3 == i / 3
  {
  }

  /** The k-th index of i's band is its k-th index past the box boundary. */
  lemma FindBoxRangeAt(i: int, k: int)
    requires 0 <= i < Size && 0 <= k < BoxSize
    ensures FindBoxRange(i)[k] == i / 3 * 3 + k
  {
  }

  /** (i, j) lies in the 3x3 box of p. */
  predicate InBoxOf(p: Pos, i: int, j: int) {
    i / 3 == p.r / 3 && j / 3 == p.c / 3
  }

  /** (i, j) shares a row, a column or a box with p (p itself included). */
  predicate Peer(p: Pos, i: int, j: int) {
    i == p.r || j == p.c || InBoxOf(p, i, j)
  }

  /** The box scan: with the flag off every iteration is skipped. */
  predicate InBox(b: Grid, p: Pos, n: int, checkCurrentPos: bool)
    requires IsGrid(b) && ValidPos(p)
    ensures !checkCurrentPos ==> !InBox(b, p, n, checkCurrentPos)
    ensures checkCurrentPos ==>
      (InBox(b, p, n, checkCurrentPos) <==>
        exists i, j :: 0 <= i < Size && 0 <= j < Size && InBoxOf(p, i, j) && b[i][j] == n)
  {
    var rangeR, rangeC := FindBoxRange(p.r), FindBoxRange(p.c);
    FindBoxRangeBand(p.r);
    FindBoxRangeBand(p.c);
    assert forall i, j :: 0 <= i < Size && 0 <= j < Size && InBoxOf(p, i, j) ==> i in rangeR && j in rangeC;
    exists row, column :: row in rangeR && column in rangeC && checkCurrentPos && b[row][column] == n
  }

  /** The row scan over all nine columns, p's own cell included. */
  predicate InHorizontal(b: Grid, p: Pos, n: int, checkCurrentPos: bool)
    requires IsGrid(b) && ValidPos(p)
    ensures !checkCurrentPos ==> !InHorizontal(b, p, n, checkCurrentPos)
    ensures checkCurrentPos ==> (InHorizontal(b, p, n, checkCurrentPos) <==> n in b[p.r])
  {
    exists column :: 0 <= column < Size && checkCurrentPos && b[p.r][column] == n
  }

  /** The column scan over all nine rows, p's own cell included. */
  predicate InVertical(b: Grid, p: Pos, n: int, checkCurrentPos: bool)
    requires IsGrid(b) && ValidPos(p)
    ensures !checkCurrentPos ==> !InVertical(b, p, n, checkCurrentPos)
    ensures checkCurrentPos ==>
      (InVertical(b, p, n, checkCurrentPos) <==> exists i :: 0 <= i < Size && b[i][p.c] == n)
  {
    exists row :: 0 <= row < Size && checkCurrentPos && b[row][p.c] == n
  }

  /** n may be placed at p: with the flag off always; with it on, exactly
      when n occurs nowhere among p's peers, p's own cell included. */
  predicate IsValidPos(b: Grid, p: Pos, n: int, checkCurrentPos: bool)
    requires IsGrid(b) && ValidPos(p)
    ensures !checkCurrentPos ==> IsValidPos(b, p, n, checkCurrentPos)
    ensures checkCurrentPos ==>
      (IsValidPos(b, p, n, checkCurrentPos) <==>
        forall i, j :: 0 <= i < Size && 0 <= j < Size && Peer(p, i, j) ==> b[i][j] != n)
  {
    !InBox(b, p, n, checkCurrentPos) && !InHorizontal(b, p, n, checkCurrentPos) &&
    !InVertical(b, p, n, checkCurrentPos)
  }

  /** A value the check accepts differs from what p holds now: the check
      looks at p's own cell too. */
  lemma ValidDiffersFromCell(b: Grid, p: Pos, n: int)
    requires IsGrid(b) && ValidPos(p) && IsValidPos(b, p, n, true)
    ensures b[p.r][p.c] != n
  {
    assert Peer(p, p.r, p.c);
  }
}
