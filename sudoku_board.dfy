/** The sudoku board of the engine in web-project/scripts/sudoku.js: a 9x9 grid of
    integers in which 0 marks an empty cell, its row-major positions, its units
    (rows, columns, 3x3 blocks), the legality test `isValid` and the count of
    empty cells. */
module SudokuBoard {

  /** Nine rows of nine integers, row-major and zero-indexed; 0 is an empty cell. */
  type Board = seq<seq<int>>

  predicate WellFormed(g: Board) {
    |g| == 9 && forall r :: 0 <= r < 9 ==> |g[r]| == 9
  }

  predicate InGrid(r: int, c: int) {
    0 <= r < 9 && 0 <= c < 9
  }

  /** The value at row-major position p, i.e. row p / 9 and column p % 9. */
  function Cell(g: Board, p: int): int
    requires WellFormed(g) && 0 <= p < 81
  {
    g[p / 9][p % 9]
  }

  lemma PositionOf(r: int, c: int)
    requires InGrid(r, c)
    ensures 0 <= r * 9 + c < 81
    ensures (r * 9 + c) / 9 == r && (r * 9 + c) % 9 == c
  {
  }

  /** The board with cell (r, c) set to v and every other cell as it was. */
  function Place(g: Board, r: int, c: int, v: int): (g': Board)
    requires WellFormed(g) && InGrid(r, c)
    ensures WellFormed(g')
    ensures forall i, j :: InGrid(i, j) ==> g'[i][j] == (if i == r && j == c then v else g[i][j])
  {
    g[r := g[r][c := v]]
  }

  /** Two well-formed boards that agree on every cell are equal. */
  lemma BoardExt(g1: Board, g2: Board)
    requires WellFormed(g1) && WellFormed(g2)
    requires forall r, c :: InGrid(r, c) ==> g1[r][c] == g2[r][c]
    ensures g1 == g2
  {
    forall r | 0 <= r < 9
      ensures g1[r] == g2[r]
    {
      assert forall c :: 0 <= c < 9 ==> g1[r][c] == g2[r][c];
    }
  }

  /** The value of a 9x9 array: the in-place board the engine mutates, seen as a Board. */
  function Grid(a: array2<int>): (g: Board)
    requires a.Length0 == 9 && a.Length1 == 9
    reads a
    ensures WellFormed(g)
    ensures forall r, c :: InGrid(r, c) ==> g[r][c] == a[r, c]
  {
    seq(9, r requires 0 <= r < 9 reads a => seq(9, c requires 0 <= c < 9 reads a => a[r, c]))
  }

  /** `board.map(row => row.slice())`: a fresh array holding the same board. */
  method CopyBoard(a: array2<int>) returns (b: array2<int>)
    requires a.Length0 == 9 && a.Length1 == 9
    ensures fresh(b) && b.Length0 == 9 && b.Length1 == 9
    ensures Grid(b) == Grid(a)
  {
    b := new int[9, 9];
    var r := 0;
    while r < 9
      invariant 0 <= r <= 9
      invariant forall i, j :: 0 <= i < r && 0 <= j < 9 ==> b[i, j] == a[i, j]
    {
      var c := 0;
      while c < 9
        invariant 0 <= c <= 9
        invariant forall i, j :: ((0 <= i < r && 0 <= j < 9) || (i == r && 0 <= j < c)) ==> b[i, j] == a[i, j]
      {
        b[r, c] := a[r, c];
        c := c + 1;
      }
      r := r + 1;
    }
    BoardExt(Grid(b), Grid(a));
  }

  /** The board `emptyBoard` builds: every cell 0. */
  function EmptyGrid(): (g: Board)
    ensures WellFormed(g)
    ensures forall r, c :: InGrid(r, c) ==> g[r][c] == 0
  {
    seq(9, r => seq(9, c => 0))
  }

  /** `emptyBoard()`: a fresh 9x9 array filled with 0, row by row. */
  method EmptyBoard() returns (b: array2<int>)
    ensures fresh(b) && b.Length0 == 9 && b.Length1 == 9
    ensures Grid(b) == EmptyGrid()
  {
    b := new int[9, 9];
    for r := 0 to 9
      invariant forall i, j :: 0 <= i < r && 0 <= j < 9 ==> b[i, j] == 0
    {
      for c := 0 to 9
        invariant forall i, j :: ((0 <= i < r && 0 <= j < 9) || (i == r && 0 <= j < c)) ==> b[i, j] == 0
      {
        b[r, c] := 0;
      }
    }
    BoardExt(Grid(b), EmptyGrid());
  }

  /** p agrees with s wherever it is not empty: it was carved out of s. */
  ghost predicate CarvedFrom(p: Board, s: Board)
    requires WellFormed(p) && WellFormed(s)
  {
    forall r, c :: InGrid(r, c) ==> p[r][c] == s[r][c] || p[r][c] == 0
  }

  // ---------------------------------------------------------------------------
  // Units and the legality test

  /** (r1, c1) and (r2, c2) lie in one row, one column or one 3x3 block. */
  predicate SameUnit(r1: int, c1: int, r2: int, c2: int) {
    r1 == r2 || c1 == c2 || (r1 / 3 == r2 / 3 && c1 / 3 == c2 / 3)
  }

  ghost predicate InRow(g: Board, r: int, v: int)
    requires WellFormed(g) && 0 <= r < 9
  {
    exists j :: 0 <= j < 9 && g[r][j] == v
  }

  ghost predicate InColumn(g: Board, c: int, v: int)
    requires WellFormed(g) && 0 <= c < 9
  {
    exists i :: 0 <= i < 9 && g[i][c] == v
  }

  /** v occurs in the 3x3 block whose top-left cell is (br, bc). */
  ghost predicate InBlock(g: Board, br: int, bc: int, v: int)
    requires WellFormed(g) && 0 <= br <= 6 && 0 <= bc <= 6
  {
    exists i, j :: br <= i < br + 3 && bc <= j < bc + 3 && g[i][j] == v
  }

  /** The legality test `isValid(board, r, c, val)` states: val occurs neither in
      row r, nor in column c, nor in the block whose origin is (floor(r/3)*3,
      floor(c/3)*3). The cell (r, c) itself is part of all three. */
  ghost predicate Legal(g: Board, r: int, c: int, v: int)
    requires WellFormed(g) && InGrid(r, c)
  {
    !InRow(g, r, v) && !InColumn(g, c, v) && !InBlock(g, r / 3 * 3, c / 3 * 3, v)
  }

  /** `isValid(board, r, c, val)`: scans row r, then column c, then the 3x3 block of
      (r, c), answering false at the first cell holding val. */
  method IsValid(b: array2<int>, r: int, c: int, v: int) returns (ok: bool)
    requires b.Length0 == 9 && b.Length1 == 9 && InGrid(r, c)
    ensures ok == Legal(Grid(b), r, c, v)
  {
    ghost var g := Grid(b);
    for i := 0 to 9
      invariant forall j :: 0 <= j < i ==> g[r][j] != v
    {
      if b[r, i] == v {
        return false;
      }
    }
    for i := 0 to 9
      invariant forall k :: 0 <= k < i ==> g[k][c] != v
    {
      if b[i, c] == v {
        return false;
      }
    }
    var br, bc := r / 3 * 3, c / 3 * 3;
    for i := 0 to 3
      invariant forall k, j :: br <= k < br + i && bc <= j < bc + 3 ==> g[k][j] != v
    {
      for j := 0 to 3
        invariant forall k, l :: ((br <= k < br + i && bc <= l < bc + 3) || (k == br + i && bc <= l < bc + j)) ==> g[k][l] != v
      {
        if b[br + i, bc + j] == v {
          return false;
        }
      }
    }
    return true;
  }

  /** The three scans of `isValid` together cover exactly the cells that share a
      unit with (r, c), the cell itself included. */
  lemma IsValidUnits(g: Board, r: int, c: int, v: int)
    requires WellFormed(g) && InGrid(r, c)
    ensures Legal(g, r, c, v) <==>
              forall i, j :: InGrid(i, j) && SameUnit(r, c, i, j) ==> g[i][j] != v
  {
    var br, bc := r / 3 * 3, c / 3 * 3;
    assert forall i :: 0 <= i < 9 ==> (i / 3 == r / 3 <==> br <= i < br + 3);
    assert forall j :: 0 <= j < 9 ==> (j / 3 == c / 3 <==> bc <= j < bc + 3);
  }

  // ---------------------------------------------------------------------------
  // Consistency of a board

  /** No two distinct cells of one unit hold the same nonzero digit. */
  ghost predicate NoConflicts(g: Board)
    requires WellFormed(g)
  {
    forall r1, c1, r2, c2 ::
      InGrid(r1, c1) && InGrid(r2, c2) && (r1 != r2 || c1 != c2) && SameUnit(r1, c1, r2, c2) && g[r1][c1] != 0
      ==> g[r1][c1] != g[r2][c2]
  }

  /** A complete legal sudoku: every cell holds a digit 1-9 and no unit repeats one. */
  ghost predicate Solved(g: Board)
    requires WellFormed(g)
  {
    (forall r, c :: InGrid(r, c) ==> 1 <= g[r][c] <= 9) && NoConflicts(g)
  }

  /** Writing a digit that `isValid` accepts keeps a consistent board consistent. */
  lemma PlaceKeepsNoConflicts(g: Board, r: int, c: int, v: int)
    requires WellFormed(g) && InGrid(r, c) && NoConflicts(g)
    requires Legal(g, r, c, v)
    ensures NoConflicts(Place(g, r, c, v))
  {
    IsValidUnits(g, r, c, v);
    var g' := Place(g, r, c, v);
    forall r1, c1, r2, c2 |
      InGrid(r1, c1) && InGrid(r2, c2) && (r1 != r2 || c1 != c2) && SameUnit(r1, c1, r2, c2) && g'[r1][c1] != 0
      ensures g'[r1][c1] != g'[r2][c2]
    {
      if r1 == r && c1 == c {
        assert g'[r2][c2] == g[r2][c2];
      } else if r2 == r && c2 == c {
        assert SameUnit(r, c, r1, c1);
        assert g'[r1][c1] == g[r1][c1];
      }
    }
  }

  // ---------------------------------------------------------------------------
  // Empty cells

  function Blank(v: int): nat {
    if v == 0 then 1 else 0
  }

  /** The number of empty cells in row[j..]. */
  function RowZeros(row: seq<int>, j: int): nat
    requires 0 <= j <= |row|
    decreases |row| - j
  {
    if j == |row| then 0 else Blank(row[j]) + RowZeros(row, j + 1)
  }

  /** The number of empty cells in rows i..8. */
  function ZerosFrom(g: Board, i: int): nat
    requires WellFormed(g) && 0 <= i <= 9
    decreases 9 - i
  {
    if i == 9 then 0 else RowZeros(g[i], 0) + ZerosFrom(g, i + 1)
  }

  /** The number of empty cells of the board. */
  function Zeros(g: Board): nat
    requires WellFormed(g)
  {
    ZerosFrom(g, 0)
  }

  lemma {:induction false} RowZerosNone(row: seq<int>, j: int)
    requires 0 <= j <= |row|
    ensures RowZeros(row, j) == 0 <==> forall k :: j <= k < |row| ==> row[k] != 0
    decreases |row| - j
  {
    if j < |row| {
      RowZerosNone(row, j + 1);
    }
  }

  lemma {:induction false} ZerosFromNone(g: Board, i: int)
    requires WellFormed(g) && 0 <= i <= 9
    ensures ZerosFrom(g, i) == 0 <==> forall r, c :: i <= r < 9 && 0 <= c < 9 ==> g[r][c] != 0
    decreases 9 - i
  {
    if i < 9 {
      RowZerosNone(g[i], 0);
      ZerosFromNone(g, i + 1);
    }
  }

  /** A board has no empty cell exactly when its count of empty cells is 0. */
  lemma NoZeros(g: Board)
    requires WellFormed(g)
    ensures Zeros(g) == 0 <==> forall r, c :: InGrid(r, c) ==> g[r][c] != 0
  {
    ZerosFromNone(g, 0);
  }

  /** Position p is cell (r, c) exactly when p = r * 9 + c. */
  lemma SamePosition(p: int, r: int, c: int)
    requires 0 <= p < 81 && InGrid(r, c)
    ensures (p / 9 == r && p % 9 == c) <==> p == r * 9 + c
  {
    PositionOf(r, c);
  }

  /** Writing cell (r, c) changes the value at position p only if p is that cell. */
  lemma PlaceCell(g: Board, r: int, c: int, v: int, p: int)
    requires WellFormed(g) && InGrid(r, c) && 0 <= p < 81
    ensures Cell(Place(g, r, c, v), p) == if p == r * 9 + c then v else Cell(g, p)
  {
    SamePosition(p, r, c);
    assert InGrid(p / 9, p % 9);
  }

  lemma {:induction false} RowZerosAfter(row: seq<int>, c: int, v: int, j: int)
    requires 0 <= c < j <= |row|
    ensures RowZeros(row[c := v], j) == RowZeros(row, j)
    decreases |row| - j
  {
    if j < |row| {
      RowZerosAfter(row, c, v, j + 1);
    }
  }

  lemma {:induction false} RowZerosUpdate(row: seq<int>, c: int, v: int, j: int)
    requires 0 <= j <= c < |row|
    ensures RowZeros(row[c := v], j) + Blank(row[c]) == RowZeros(row, j) + Blank(v)
    decreases |row| - j
  {
    if j == c {
      RowZerosAfter(row, c, v, j + 1);
    } else {
      RowZerosUpdate(row, c, v, j + 1);
    }
  }

  lemma {:induction false} ZerosFromAfter(g: Board, r: int, c: int, v: int, i: int)
    requires WellFormed(g) && InGrid(r, c) && r < i <= 9
    ensures ZerosFrom(Place(g, r, c, v), i) == ZerosFrom(g, i)
    decreases 9 - i
  {
    if i < 9 {
      ZerosFromAfter(g, r, c, v, i + 1);
      assert Place(g, r, c, v)[i] == g[i];
    }
  }

  lemma {:induction false} ZerosFromPlace(g: Board, r: int, c: int, v: int, i: int)
    requires WellFormed(g) && InGrid(r, c) && 0 <= i <= r
    ensures ZerosFrom(Place(g, r, c, v), i) + Blank(g[r][c]) == ZerosFrom(g, i) + Blank(v)
    decreases 9 - i
  {
    var g' := Place(g, r, c, v);
    if i == r {
      assert g'[r] == g[r][c := v];
      RowZerosUpdate(g[r], c, v, 0);
      ZerosFromAfter(g, r, c, v, r + 1);
    } else {
      assert g'[i] == g[i];
      ZerosFromPlace(g, r, c, v, i + 1);
    }
  }

  /** Writing v at (r, c) changes the number of empty cells by exactly what it
      changes at that one cell. */
  lemma PlaceZeros(g: Board, r: int, c: int, v: int)
    requires WellFormed(g) && InGrid(r, c)
    ensures Zeros(Place(g, r, c, v)) + Blank(g[r][c]) == Zeros(g) + Blank(v)
  {
    ZerosFromPlace(g, r, c, v, 0);
  }
}
