/** The table of a Sudoku game: its cells, its shape, how a fresh one is built,
    how the givens are frozen, and the reference definitions of what a valid,
    filled and solved table is. */
module Tables {

  /** Side of one box (the square root of the table length). */
  const Root: nat := 3

  /** Side of the table; the app always builds 9 x 9 tables. */
  const N: nat := Root * Root

  /** One cell of the table. The source calls this record `Grid`:
      a value (0 means empty) and a readonly flag marking a given. */
  datatype Grid = Grid(value: int, readonly: bool)

  /** A table as a value: a sequence of rows. */
  type Table = seq<seq<Grid>>

  predicate IsTable(t: Table) {
    |t| == N && forall r :: 0 <= r < N ==> |t[r]| == N
  }

  /** A cell the backtracking searches skip: a nonzero value that is readonly. */
  predicate IsFixed(g: Grid) {
    g.value != 0 && g.readonly
  }

  /** Row-major position of a cell: the order in which the searches visit cells. */
  function Pos(i: int, j: int): int {
    i * N + j
  }

  /** Cell (r, c) comes before cell (row, col) in row-major order. */
  predicate Before(r: int, c: int, row: int, col: int) {
    r < row || (r == row && c < col)
  }

  /** Different cells have different row-major positions. */
  lemma PosInjective(i: int, j: int, r: int, c: int)
    requires InTable(i, j) && InTable(r, c)
    ensures Pos(i, j) == Pos(r, c) ==> i == r && j == c
  {
    assert Pos(i, j) - Pos(r, c) == (i - r) * N + (j - c);
    if i > r {
      assert (i - r) * N >= N;
    } else if i < r {
      assert (r - i) * N >= N;
    }
  }

  /** The cursor that stands past the last cell, where the searches check
      the whole table. */
  predicate IsEnd(rowStart: int, colStart: int) {
    rowStart == N - 1 && colStart == N
  }

  /** The cell a call at (rowStart, colStart) works on: a column index of N
      stands for the first cell of the next row. */
  function Cursor(rowStart: int, colStart: int): (cell: (int, int))
    ensures Pos(cell.0, cell.1) == Pos(rowStart, colStart)
  {
    if colStart == N then (rowStart + 1, 0) else (rowStart, colStart)
  }

  predicate InDigitRange(v: int) {
    1 <= v <= N
  }

  /** Top-left coordinate of the box holding coordinate `i`. */
  function BoxOrigin(i: nat): (o: nat)
    ensures o <= i < o + Root && o % Root == 0
  {
    i - i % Root
  }

  predicate SameBox(r1: int, c1: int, r2: int, c2: int) {
    r1 / Root == r2 / Root && c1 / Root == c2 / Root
  }

  /** Two different cells that share a row, a column or a box. */
  predicate Peers(r1: int, c1: int, r2: int, c2: int) {
    (r1 != r2 || c1 != c2) && (r1 == r2 || c1 == c2 || SameBox(r1, c1, r2, c2))
  }

  predicate InTable(i: int, j: int) {
    0 <= i < N && 0 <= j < N
  }

  /** No digit 1..N occurs twice in any row, column or box; other values
      (0 for an empty cell) never conflict. */
  ghost predicate NoDuplicates(t: Table)
    requires IsTable(t)
  {
    forall r1, c1, r2, c2 ::
      InTable(r1, c1) && InTable(r2, c2) && Peers(r1, c1, r2, c2) && InDigitRange(t[r1][c1].value)
      ==> t[r1][c1].value != t[r2][c2].value
  }

  /** The same, restricted to the cells that come before (row, col). */
  ghost predicate NoDuplicatesBefore(t: Table, row: int, col: int)
    requires IsTable(t)
  {
    forall r1, c1, r2, c2 ::
      InTable(r1, c1) && InTable(r2, c2) && Before(r1, c1, row, col) && Before(r2, c2, row, col) &&
      Peers(r1, c1, r2, c2) && InDigitRange(t[r1][c1].value)
      ==> t[r1][c1].value != t[r2][c2].value
  }

  ghost predicate Filled(t: Table)
    requires IsTable(t)
  {
    forall i, j :: InTable(i, j) ==> t[i][j].value != 0
  }

  ghost predicate Solved(t: Table)
    requires IsTable(t)
  {
    NoDuplicates(t) && Filled(t)
  }

  /** `n` occurs neither in row `i`, nor in column `j`, nor in the box whose
      top-left corner is (BoxOrigin(i), BoxOrigin(j)). */
  ghost predicate CanPlace(t: Table, i: nat, j: nat, n: int)
    requires IsTable(t) && i < N && j < N
  {
    (forall c :: 0 <= c < N ==> t[i][c].value != n) &&
    (forall r :: 0 <= r < N ==> t[r][j].value != n) &&
    (forall r, c :: BoxOrigin(i) <= r < BoxOrigin(i) + Root && BoxOrigin(j) <= c < BoxOrigin(j) + Root
       ==> t[r][c].value != n)
  }

  // ---------------------------------------------------------------------------
  // How a table `u` relates to an earlier state `s` of the same table

  /** Every cell before row-major position `p` is as it was. */
  ghost predicate KeptBefore(s: Table, u: Table, p: int)
    requires IsTable(s) && IsTable(u)
  {
    forall i, j :: InTable(i, j) && Pos(i, j) < p ==> u[i][j] == s[i][j]
  }

  /** Every cell from row-major position `p` on holds a nonzero value. */
  ghost predicate FilledFrom(u: Table, p: int)
    requires IsTable(u)
  {
    forall i, j :: InTable(i, j) && Pos(i, j) >= p ==> u[i][j].value != 0
  }

  /** The table with cell (i, j) replaced by `g`. */
  function Put(t: Table, i: nat, j: nat, g: Grid): (u: Table)
    requires IsTable(t) && i < N && j < N
    ensures IsTable(u)
    ensures forall r, c :: InTable(r, c) ==> u[r][c] == if r == i && c == j then g else t[r][c]
  {
    t[i := t[i][j := g]]
  }

  /** The current contents of a table held in a two-dimensional array. */
  function Snapshot(a: array2<Grid>): (t: Table)
    reads a
    requires a.Length0 == N && a.Length1 == N
    ensures IsTable(t)
    ensures forall i, j :: InTable(i, j) ==> t[i][j] == a[i, j]
  {
    seq(N, i requires 0 <= i < N reads a => seq(N, j requires 0 <= j < N reads a => a[i, j]))
  }

  /** A new two-dimensional array holding the cells of `t`. */
  method FromTable(t: Table) returns (a: array2<Grid>)
    requires IsTable(t)
    ensures fresh(a) && a.Length0 == N && a.Length1 == N
    ensures Snapshot(a) == t
  {
    a := new Grid[N, N]((i, j) requires 0 <= i < N && 0 <= j < N => t[i][j]);
    assert forall i :: 0 <= i < N ==> Snapshot(a)[i] == t[i];
  }

  // ---------------------------------------------------------------------------
  // Construction helpers of the source

  /** An array of `num` zeros. */
  function GetNilArrayWithLength(num: nat): (s: seq<int>)
    ensures |s| == num && forall k :: 0 <= k < num ==> s[k] == 0
  {
    seq(num, _ => 0)
  }

  /** The sequence 1, 2, ..., num: the zeros array mapped with their index. */
  function GetSequenceArrayWithLength(num: nat): (s: seq<int>)
    ensures |s| == num && forall k :: 0 <= k < num ==> s[k] == k + 1
  {
    var nil := GetNilArrayWithLength(num);
    seq(|nil|, k requires 0 <= k < |nil| => k + 1)
  }

  /** A counter map with the keys 1..num, each counting 0: the sequence
      1..num folded into an object keyed by its elements. */
  function GetInitializedGridMap(num: nat): (m: map<int, int>)
    ensures forall v :: v in m <==> 1 <= v <= num
    ensures forall v :: v in m ==> m[v] == 0
  {
    var keys := GetSequenceArrayWithLength(num);
    forall v | 1 <= v <= num
      ensures v in keys
    {
      assert keys[v - 1] == v;
    }
    map v | v in keys :: 0
  }

  /** A row of `size` cells, each with value 0 and readonly set. */
  function GetDummyRow(size: nat): (row: seq<Grid>)
    ensures |row| == size && forall k :: 0 <= k < size ==> row[k] == Grid(0, true)
  {
    seq(size, _ => Grid(0, true))
  }

  /** A `size` x `size` table of empty readonly cells. */
  function InitializeTable(size: nat): (t: Table)
    ensures |t| == size
    ensures forall i :: 0 <= i < size ==> |t[i]| == size
    ensures forall i, j :: 0 <= i < size && 0 <= j < size ==> t[i][j] == Grid(0, true)
  {
    seq(size, _ => GetDummyRow(size))
  }

  /** A new table with every value kept and `readonly` set exactly on the
      nonzero cells: the digits left after carving become the givens. */
  function MakePrefilledDigitsReadonly(t: Table): (u: Table)
    ensures |u| == |t|
    ensures forall i :: 0 <= i < |t| ==> |u[i]| == |t[i]|
    ensures forall i, j :: 0 <= i < |t| && 0 <= j < |t[i]| ==>
              u[i][j].value == t[i][j].value && (u[i][j].readonly <==> t[i][j].value != 0)
  {
    seq(|t|, i requires 0 <= i < |t| =>
      seq(|t[i]|, j requires 0 <= j < |t[i]| =>
        var g := t[i][j];
        Grid(if g.value != 0 then g.value else 0, g.value != 0)))
  }

  /** Freezing the givens twice is the same as freezing them once. */
  lemma MakePrefilledDigitsReadonlyIdempotent(t: Table)
    ensures MakePrefilledDigitsReadonly(MakePrefilledDigitsReadonly(t)) == MakePrefilledDigitsReadonly(t)
  {
    var u := MakePrefilledDigitsReadonly(t);
    var w := MakePrefilledDigitsReadonly(u);
    forall i | 0 <= i < |t|
      ensures w[i] == u[i]
    {
      assert |w[i]| == |u[i]|;
      forall j | 0 <= j < |u[i]|
        ensures w[i][j] == u[i][j]
      {
      }
    }
  }

  // ---------------------------------------------------------------------------
  // Reference facts

  /** Cells that share a box are exactly the cells inside the box whose origin
      is computed as `i - i % Root`, the origin the legality check scans. */
  lemma SameBoxIsBoxOrigin(i: nat, j: nat, r: nat, c: nat)
    ensures SameBox(i, j, r, c) <==>
              (BoxOrigin(i) <= r < BoxOrigin(i) + Root && BoxOrigin(j) <= c < BoxOrigin(j) + Root)
  {
  }

  /** Writing a digit where the legality check allows it keeps a table free of
      duplicates. */
  lemma {:induction false} PlacementKeepsNoDuplicates(t: Table, i: nat, j: nat, n: int, ro: bool)
    requires IsTable(t) && i < N && j < N
    requires NoDuplicates(t) && CanPlace(t, i, j, n)
    ensures NoDuplicates(Put(t, i, j, Grid(n, ro)))
  {
    var u: Table := Put(t, i, j, Grid(n, ro));
    forall r1: int, c1: int, r2: int, c2: int |
      InTable(r1, c1) && InTable(r2, c2) && Peers(r1, c1, r2, c2) && InDigitRange(u[r1][c1].value)
      ensures u[r1][c1].value != u[r2][c2].value
    {
      if r1 == i && c1 == j {
        SameBoxIsBoxOrigin(i, j, r2, c2);
      } else if r2 == i && c2 == j {
        SameBoxIsBoxOrigin(i, j, r1, c1);
      }
    }
  }

  /** Two tables with the same cells are the same table. */
  lemma SameCells(s: Table, u: Table)
    requires IsTable(s) && IsTable(u)
    requires forall i, j :: InTable(i, j) ==> s[i][j] == u[i][j]
    ensures s == u
  {
    forall i | 0 <= i < N
      ensures s[i] == u[i]
    {
      assert forall j :: 0 <= j < N ==> s[i][j] == u[i][j];
    }
  }

  /** Emptying cells never creates a duplicate: 0 conflicts with nothing. */
  lemma ClearingKeepsNoDuplicates(s: Table, u: Table)
    requires IsTable(s) && IsTable(u) && NoDuplicates(s)
    requires forall i, j :: InTable(i, j) ==> u[i][j].value == s[i][j].value || u[i][j].value == 0
    ensures NoDuplicates(u)
  {
    forall r1, c1, r2, c2 |
      InTable(r1, c1) && InTable(r2, c2) && Peers(r1, c1, r2, c2) && InDigitRange(u[r1][c1].value)
      ensures u[r1][c1].value != u[r2][c2].value
    {
      assert u[r1][c1].value == s[r1][c1].value;
    }
  }

  /** A freshly initialised table has no duplicates but is not filled, so it
      is not solved. */
  lemma InitializedTableIsValidButNotSolved()
    ensures IsTable(InitializeTable(N))
    ensures NoDuplicates(InitializeTable(N))
    ensures !Filled(InitializeTable(N)) && !Solved(InitializeTable(N))
  {
    var t: Table := InitializeTable(N);
    assert t[0][0].value == 0;
  }

  // ---------------------------------------------------------------------------
  // Counting the nonzero cells

  function CountNonzeroInRow(row: seq<Grid>): (k: nat)
    ensures k <= |row|
  {
    if row == [] then 0 else (if row[0].value != 0 then 1 else 0) + CountNonzeroInRow(row[1..])
  }

  /** Number of cells of the table whose value is not 0. */
  function CountNonzero(t: Table): nat {
    if t == [] then 0 else CountNonzeroInRow(t[0]) + CountNonzero(t[1..])
  }

  lemma {:induction false} ClearInRow(row: seq<Grid>, y: nat, g: Grid)
    requires y < |row| && row[y].value != 0 && g.value == 0
    ensures CountNonzeroInRow(row[y := g]) + 1 == CountNonzeroInRow(row)
  {
    if y > 0 {
      ClearInRow(row[1..], y - 1, g);
      assert row[y := g][1..] == row[1..][y - 1 := g];
    }
  }

  /** Emptying one nonzero cell lowers the count of nonzero cells by exactly one. */
  lemma {:induction false} ClearOneCell(t: Table, x: nat, y: nat, g: Grid)
    requires x < |t| && y < |t[x]| && t[x][y].value != 0 && g.value == 0
    ensures CountNonzero(t[x := t[x][y := g]]) + 1 == CountNonzero(t)
  {
    if x == 0 {
      ClearInRow(t[0], y, g);
      assert t[x := t[x][y := g]][1..] == t[1..];
    } else {
      ClearOneCell(t[1..], x - 1, y, g);
      assert t[x := t[x][y := g]][1..] == t[1..][x - 1 := t[x][y := g]];
    }
  }

  lemma {:induction false} FullRowCount(row: seq<Grid>)
    requires forall k :: 0 <= k < |row| ==> row[k].value != 0
    ensures CountNonzeroInRow(row) == |row|
  {
    if row != [] {
      FullRowCount(row[1..]);
    }
  }

  lemma {:induction false} FullRowsCount(t: Table)
    requires forall i :: 0 <= i < |t| ==> |t[i]| == N
    requires forall i, j :: 0 <= i < |t| && 0 <= j < |t[i]| ==> t[i][j].value != 0
    ensures CountNonzero(t) == |t| * N
  {
    if t != [] {
      FullRowCount(t[0]);
      FullRowsCount(t[1..]);
    }
  }

  lemma {:induction false} SameValuesInRow(row: seq<Grid>, row': seq<Grid>)
    requires |row| == |row'| && forall k :: 0 <= k < |row| ==> row[k].value == row'[k].value
    ensures CountNonzeroInRow(row) == CountNonzeroInRow(row')
  {
    if row != [] {
      SameValuesInRow(row[1..], row'[1..]);
    }
  }

  /** The count of nonzero cells depends on the values only. */
  lemma {:induction false} SameValuesSameCount(t: Table, t': Table)
    requires |t| == |t'| && forall i :: 0 <= i < |t| ==> |t[i]| == |t'[i]|
    requires forall i, j :: 0 <= i < |t| && 0 <= j < |t[i]| ==> t[i][j].value == t'[i][j].value
    ensures CountNonzero(t) == CountNonzero(t')
  {
    if t != [] {
      SameValuesInRow(t[0], t'[0]);
      SameValuesSameCount(t[1..], t'[1..]);
    }
  }

  /** A filled table has all N * N cells nonzero. */
  lemma FilledCount(t: Table)
    requires IsTable(t) && Filled(t)
    ensures CountNonzero(t) == N * N
  {
    FullRowsCount(t);
  }
}
